/**
  The certificate authority database: rows, the serial and name indexes over
  them, and the operations that change them (issue, revoke, expire).
 */
module CaDatabase {

  import opened Options
  import opened SerialNumbers
  import opened RevocationInfo
  import TextDatabase

  datatype Row = Row(kind: string, expiry: string, revoked: string, serial: string, file: string, name: string)
  {
    /** First character of the type field, '\0' when it is empty. */
    function Kind(): char {
      if kind == "" then '\0' else kind[0]
    }

    function Fields(): (f: TextDatabase.Fields)
      ensures |f| == TextDatabase.FIELDS
    {
      [kind, expiry, revoked, serial, file, name]
    }
  }

  /** What the database takes from a certificate: serial number, printed subject and end of validity. */
  datatype Certificate = Certificate(serial: int, subject: string, expiry: string)
  {
    function SerialField(): string {
      if serial < 0 then "-" + BytesToHex(-serial) else SerialText(serial)
    }

    /** An empty subject is stored as the serial. */
    function NameField(): string {
      if subject == "" then SerialField() else subject
    }

    function ValidRow(): Row {
      Row("V", expiry, "", SerialField(), "unknown", NameField())
    }
  }

  // ---------------------------------------------------------------- load check and indexes

  predicate SerialFieldOk(serial: string) {
    |Magnitude(serial)| % 2 == 0 && |Magnitude(serial)| >= 2 && IsSerial(serial)
  }

  /** What `ca` checks of each row that it loads. */
  predicate RowOk(asn1: Asn1, r: Row) {
    && (r.Kind() != 'R' ==> r.revoked == "")
    && (r.Kind() == 'R' ==> ParseRevocation(asn1, r.revoked).Some?)
    && asn1.isTime(r.expiry)
    && SerialFieldOk(r.serial)
  }

  function Key(r: Row): string {
    StripZeros(r.serial)
  }

  ghost predicate SerialsUnique(rows: seq<Row>) {
    forall i, j :: 0 <= i < j < |rows| ==> Key(rows[i]) != Key(rows[j])
  }

  ghost predicate ValidNamesUnique(rows: seq<Row>) {
    forall i, j :: 0 <= i < j < |rows| && rows[i].Kind() == 'V' && rows[j].Kind() == 'V' ==> rows[i].name != rows[j].name
  }

  /** The database invariant: rows that load, with unique serials and, if asked for, unique valid names. */
  ghost predicate Sound(asn1: Asn1, rows: seq<Row>, unique: bool) {
    && (forall i :: 0 <= i < |rows| ==> RowOk(asn1, rows[i]))
    && SerialsUnique(rows)
    && (unique ==> ValidNamesUnique(rows))
  }

  /** The scan of a loaded database; stops at the first bad row. */
  method CheckRows(asn1: Asn1, rows: seq<Row>) returns (ok: bool)
    ensures ok <==> forall i :: 0 <= i < |rows| ==> RowOk(asn1, rows[i])
  {
    for i := 0 to |rows|
      invariant forall k :: 0 <= k < i ==> RowOk(asn1, rows[k])
    {
      var r := rows[i];
      if r.Kind() != 'R' && r.revoked != "" {
        return false;
      }
      if r.Kind() == 'R' && ParseRevocation(asn1, r.revoked).None? {
        return false;
      }
      if !asn1.isTime(r.expiry) {
        return false;
      }
      var p, j := 0, |r.serial|;
      if r.serial != "" && r.serial[0] == '-' {
        p, j := 1, j - 1;
      }
      if j % 2 == 1 || j < 2 {
        return false;
      }
      ghost var start := p;
      while p < |r.serial|
        invariant start <= p <= |r.serial|
        invariant forall k :: start <= k < p ==> IsHex(r.serial[k])
      {
        if !IsHex(r.serial[p]) {
          assert !IsHex(r.serial[start..][p - start]);
          return false;
        }
        p := p + 1;
      }
      assert r.serial[0..] == r.serial;
    }
    ok := true;
  }

  /** First row with the given serial key, or -1. */
  function FindKey(rows: seq<Row>, key: string): (r: int)
    ensures -1 <= r < |rows|
    ensures r >= 0 ==> Key(rows[r]) == key
    ensures forall k :: 0 <= k < (if r < 0 then |rows| else r) ==> Key(rows[k]) != key
  {
    if rows == [] then -1
    else if Key(rows[0]) == key then 0
    else
      var r := FindKey(rows[1..], key);
      if r < 0 then -1 else r + 1
  }

  // ---------------------------------------------------------------- operations on rows

  /** The names that the name index holds for freshly loaded rows. */
  function ValidNames(rows: seq<Row>, unique: bool): set<string> {
    if unique then set i | 0 <= i < |rows| && rows[i].Kind() == 'V' :: rows[i].name else {}
  }

  /** Adds a valid row unless its name is taken or its serial is present. */
  function Insert(rows: seq<Row>, taken: set<string>, c: Certificate): Option<seq<Row>> {
    if c.NameField() in taken || FindKey(rows, StripZeros(c.SerialField())) >= 0 then None
    else Some(rows + [c.ValidRow()])
  }

  function Revoke(asn1: Asn1, rows: seq<Row>, taken: set<string>, c: Certificate,
                  how: RevocationType, arg: string, now: string): Option<seq<Row>>
  {
    var known := FindKey(rows, StripZeros(c.SerialField()));
    if known < 0 then
      var added := Insert(rows, taken, c);
      if added.None? || how.StatusValid? then added
      else MarkRevoked(asn1, added.value, |rows|, how, arg, now)
    else if rows[known].name != c.NameField() || how.StatusValid? || rows[known].Kind() == 'R' then None
    else MarkRevoked(asn1, rows, known, how, arg, now)
  }

  function MarkRevoked(asn1: Asn1, rows: seq<Row>, i: nat,
                       how: RevocationType, arg: string, now: string): Option<seq<Row>>
    requires i < |rows|
  {
    var text := PrintRevocation(asn1, how, arg, now);
    if text.None? then None else Some(rows[i := rows[i].(kind := "R", revoked := text.value)])
  }

  /** Adding an unknown certificate and revoking again is what revoking it at once gives. */
  lemma RevokeAfterInsert(asn1: Asn1, rows: seq<Row>, taken: set<string>, taken': set<string>, c: Certificate,
                          how: RevocationType, arg: string, now: string)
    requires Insert(rows, taken, c).Some? && !how.StatusValid?
    ensures FindKey(Insert(rows, taken, c).value, StripZeros(c.SerialField())) == |rows|
    ensures Revoke(asn1, rows, taken, c, how, arg, now)
         == Revoke(asn1, Insert(rows, taken, c).value, taken', c, how, arg, now)
  {
    var (added, key) := (Insert(rows, taken, c).value, StripZeros(c.SerialField()));
    assert Key(added[|rows|]) == key;
    assert forall k :: 0 <= k < |rows| ==> Key(added[k]) == Key(rows[k]);
    assert FindKey(added, key) == |rows|;
  }

  /** The serial field denotes the certificate's serial number, of either sign. */
  lemma SerialFieldDenotes(c: Certificate)
    ensures IsSerial(c.SerialField()) && SerialValue(c.SerialField()) == c.serial
  {
    if c.serial < 0 {
      NegativeDenotes(c.SerialField(), BytesToHex(-c.serial), -c.serial);
    } else {
      PositiveDenotes(c.SerialField(), c.serial);
    }
  }

  lemma NegativeDenotes(text: string, digits: string, n: nat)
    requires digits == BytesToHex(n) && text == "-" + digits
    ensures IsSerial(text) && SerialValue(text) + n == 0
  {
    BytesToHexValue(n);
    assert Magnitude(text) == digits;
  }

  lemma PositiveDenotes(text: string, n: nat)
    requires text == SerialText(n)
    ensures IsSerial(text) && SerialValue(text) == n
  {
    SerialTextDenotes(n);
    assert IsUpperHex(text[0]);
  }

  /**
    Issuing a certificate: refused exactly when its serial is in use or its name,
    which is its serial if the subject is empty, is taken; otherwise its valid row
    is appended.
   */
  lemma InsertMeans(rows: seq<Row>, taken: set<string>, c: Certificate)
    ensures var (r, serial) := (Insert(rows, taken, c), c.SerialField());
            var name := if c.subject == "" then serial else c.subject;
            && IsSerial(serial) && SerialValue(serial) == c.serial
            && (r.Some? <==> name !in taken && forall k :: 0 <= k < |rows| ==> Key(rows[k]) != StripZeros(serial))
            && (r.Some? ==> r.value == rows + [Row("V", c.expiry, "", serial, "unknown", name)])
  {
    SerialFieldDenotes(c);
  }

  /**
    Revoking a certificate whose serial is in the database: refused when the name
    differs, the row is revoked already, or there is nothing to revoke; otherwise
    just this row changes, to a revoked one with the printed entry.
   */
  lemma RevokeKnown(asn1: Asn1, rows: seq<Row>, taken: set<string>, c: Certificate, how: RevocationType, arg: string, now: string, i: nat)
    requires SerialsUnique(rows) && i < |rows| && Key(rows[i]) == StripZeros(c.SerialField())
    ensures var (r, text) := (Revoke(asn1, rows, taken, c, how, arg, now), PrintRevocation(asn1, how, arg, now));
            var name := if c.subject == "" then c.SerialField() else c.subject;
            && (r.Some? <==> rows[i].name == name && rows[i].Kind() != 'R' && !how.StatusValid? && text.Some?)
            && (r.Some? ==> r.value == rows[i := Row("R", rows[i].expiry, text.value, rows[i].serial, rows[i].file, rows[i].name)])
  {
    assert FindKey(rows, StripZeros(c.SerialField())) == i;
  }

  /**
    Revoking a certificate whose serial is not in the database: if its name is
    free, a row for it is appended, revoked with the printed entry, or valid when
    that is all that was asked.
   */
  lemma RevokeUnknown(asn1: Asn1, rows: seq<Row>, taken: set<string>, c: Certificate, how: RevocationType, arg: string, now: string)
    requires forall i :: 0 <= i < |rows| ==> Key(rows[i]) != StripZeros(c.SerialField())
    ensures var (r, text, serial) := (Revoke(asn1, rows, taken, c, how, arg, now), PrintRevocation(asn1, how, arg, now), c.SerialField());
            var name := if c.subject == "" then serial else c.subject;
            && (r.Some? <==> name !in taken && (how.StatusValid? || text.Some?))
            && (r.Some? ==> r.value == rows + [if how.StatusValid? then Row("V", c.expiry, "", serial, "unknown", name)
                                               else Row("R", c.expiry, text.value, serial, "unknown", name)])
  {
    InsertMeans(rows, taken, c);
  }

  /**
    After a revocation the certificate's serial leads to a revoked row, whose entry
    reads back as the time, the reason of section 5.3.1 of RFC 5280 and the argument.
   */
  lemma RevokedReadsBack(asn1: Asn1, rows: seq<Row>, taken: set<string>, c: Certificate, how: RevocationType, arg: string, now: string)
    requires SerialsUnique(rows) && !how.StatusValid? && asn1.isUtc(now) && ',' !in now
    requires Revoke(asn1, rows, taken, c, how, arg, now).Some?
    ensures var rows' := Revoke(asn1, rows, taken, c, how, arg, now).value;
            var j := FindKey(rows', StripZeros(c.SerialField()));
            && j >= 0 && rows'[j].Kind() == 'R'
            && ParseRevocation(asn1, rows'[j].revoked) ==
               Some(Revocation(now, RfcReason(how, arg), if how.HoldInstruction? then asn1.oid(arg) else None,
                               if how.KeyCompromise? || how.CaCompromise? then Some(arg) else None))
  {
    var (known, key) := (FindKey(rows, StripZeros(c.SerialField())), StripZeros(c.SerialField()));
    var rows' := Revoke(asn1, rows, taken, c, how, arg, now).value;
    var at := if known < 0 then |rows| else known;
    assert forall k :: 0 <= k < at ==> Key(rows'[k]) == Key(rows[k]) != key;
    assert Key(rows'[at]) == key;
    assert FindKey(rows', key) == at;
    RoundTrip(asn1, how, arg, now);
  }

  /** A valid row whose expiry date does not parse. */
  predicate Undated(asn1: Asn1, r: Row) {
    r.Kind() == 'V' && !asn1.isTime(r.expiry)
  }

  /** Position of the first such row, or the number of rows. */
  function FirstUndated(asn1: Asn1, rows: seq<Row>): (i: nat)
    ensures i <= |rows| && (i < |rows| ==> Undated(asn1, rows[i]))
    ensures forall k :: 0 <= k < i ==> !Undated(asn1, rows[k])
  {
    if rows == [] || Undated(asn1, rows[0]) then 0 else 1 + FirstUndated(asn1, rows[1..])
  }

  /** The rows when the valid ones among the first `k` whose expiry date has passed are marked; `passed` holds the dates that have. */
  function ExpireTo(rows: seq<Row>, passed: set<string>, k: nat): (r: seq<Row>)
    ensures |r| == |rows|
    ensures forall i :: 0 <= i < |rows| ==>
              r[i] == if i < k && rows[i].Kind() == 'V' && rows[i].expiry in passed then rows[i].(kind := "E") else rows[i]
  {
    seq(|rows|, i requires 0 <= i < |rows| =>
      if i < k && rows[i].Kind() == 'V' && rows[i].expiry in passed then rows[i].(kind := "E") else rows[i])
  }

  /** Marks every valid row whose expiry date has passed. */
  function Expire(rows: seq<Row>, passed: set<string>): (r: seq<Row>)
    ensures |r| == |rows|
    ensures forall i :: 0 <= i < |rows| ==>
              r[i] == if rows[i].Kind() == 'V' && rows[i].expiry in passed then rows[i].(kind := "E") else rows[i]
  {
    ExpireTo(rows, passed, |rows|)
  }

  /** How many of the first `k` rows expire. */
  ghost function Expiring(rows: seq<Row>, passed: set<string>, k: nat): nat
    requires k <= |rows|
  {
    if k == 0 then 0
    else Expiring(rows, passed, k - 1) + if rows[k - 1].Kind() == 'V' && rows[k - 1].expiry in passed then 1 else 0
  }

  ghost predicate Expires(row: Row, passed: set<string>) {
    row.Kind() == 'V' && row.expiry in passed
  }

  lemma {:induction false} ExpiringIsCount(rows: seq<Row>, passed: set<string>, k: nat)
    requires k <= |rows|
    ensures Expiring(rows, passed, k) == |set i | 0 <= i < k && Expires(rows[i], passed)|
  {
    var expired := set i | 0 <= i < k && Expires(rows[i], passed);
    if k == 0 {
      assert expired == {};
    } else {
      var before := set i | 0 <= i < k - 1 && Expires(rows[i], passed);
      ExpiringIsCount(rows, passed, k - 1);
      assert expired == before + if Expires(rows[k - 1], passed) then {k - 1} else {};
    }
  }

  /** When none expires nothing changes. */
  lemma {:induction false} NoneExpired(rows: seq<Row>, passed: set<string>, k: nat)
    requires k <= |rows| && Expiring(rows, passed, k) == 0
    ensures ExpireTo(rows, passed, k) == rows
  {
    if k > 0 {
      NoneExpired(rows, passed, k - 1);
      ExpireToMore(rows, passed, k - 1);
    }
  }

  lemma ExpireToMore(rows: seq<Row>, passed: set<string>, k: nat)
    requires k < |rows|
    ensures ExpireTo(rows, passed, k)[k] == rows[k]
    ensures ExpireTo(rows, passed, k + 1) ==
            if rows[k].Kind() == 'V' && rows[k].expiry in passed then ExpireTo(rows, passed, k)[k := rows[k].(kind := "E")]
            else ExpireTo(rows, passed, k)
  {
  }

  /** The row that a scan has come to decides whether it goes on. */
  lemma ScanGoesOn(asn1: Asn1, rows: seq<Row>, i: nat)
    requires i < |rows| && i <= FirstUndated(asn1, rows)
    ensures if Undated(asn1, rows[i]) then FirstUndated(asn1, rows) == i else i + 1 <= FirstUndated(asn1, rows)
  {
  }

  /** A scan that has come to row `i`: it found no date that does not parse, and counted the rows it marked. */
  ghost predicate Scanned(asn1: Asn1, before: seq<Row>, passed: set<string>, i: nat, rows: seq<Row>, count: int) {
    && i <= FirstUndated(asn1, before) && rows == ExpireTo(before, passed, i)
    && count == Expiring(before, passed, i)
  }

  /** A scan that has stopped at row `i` or gone past the last row. */
  lemma UpdateMeans(asn1: Asn1, before: seq<Row>, passed: set<string>, i: nat, rows: seq<Row>, counted: nat, count: int)
    requires i <= |before| && Scanned(asn1, before, passed, i, rows, counted)
    requires i < |before| ==> Undated(asn1, before[i])
    requires count == if i < |before| then -1 else counted
    ensures count < 0 <==> exists i :: 0 <= i < |before| && before[i].Kind() == 'V' && !asn1.isTime(before[i].expiry)
    ensures count >= 0 ==> rows == Expire(before, passed)
    ensures count >= 0 ==> count == |set i | 0 <= i < |before| && before[i].Kind() == 'V' && before[i].expiry in passed|
    ensures count == 0 ==> rows == before
    ensures count < 0 ==> rows == ExpireTo(before, passed, FirstUndated(asn1, before))
  {
    ExpiringIsCount(before, passed, |before|);
    assert (set i | 0 <= i < |before| && before[i].Kind() == 'V' && before[i].expiry in passed) ==
           set i | 0 <= i < |before| && Expires(before[i], passed);
    if count == 0 {
      NoneExpired(before, passed, |before|);
    }
    if count < 0 {
      assert Undated(asn1, before[FirstUndated(asn1, before)]);
    } else {
      assert forall i :: 0 <= i < |before| ==> !Undated(asn1, before[i]);
    }
  }

  // ---------------------------------------------------------------- the live database

  /** A loaded database with its two indexes, changed in place. */
  class Database {
    var rows: seq<Row>
    const unique: bool
    var bySerial: map<string, nat>
    var byName: map<string, nat>

    constructor (rows: seq<Row>, unique: bool)
      ensures this.rows == rows && this.unique == unique && bySerial == map[] && byName == map[]
    {
      this.rows, this.unique, bySerial, byName := rows, unique, map[], map[];
    }

    /**
      The serial index holds every row under its key.  The name index holds every
      valid row; rows indexed while valid stay in it after they change type.
     */
    ghost predicate Valid()
      reads this
    {
      && (forall i :: 0 <= i < |rows| ==> Key(rows[i]) in bySerial && bySerial[Key(rows[i])] == i)
      && (forall k :: k in bySerial ==> bySerial[k] < |rows| && Key(rows[bySerial[k]]) == k)
      && (forall k :: k in byName ==> byName[k] < |rows| && rows[byName[k]].name == k)
      && (unique ==> forall i :: 0 <= i < |rows| && rows[i].Kind() == 'V' ==> rows[i].name in byName && byName[rows[i].name] == i)
      && (!unique ==> byName == map[])
    }

    method IndexSerials() returns (ok: bool)
      modifies this`bySerial
      ensures ok <==> SerialsUnique(rows)
      ensures ok ==> forall k :: 0 <= k < |rows| ==> Key(rows[k]) in bySerial && bySerial[Key(rows[k])] == k
      ensures ok ==> forall k :: k in bySerial ==> bySerial[k] < |rows| && Key(rows[bySerial[k]]) == k
    {
      bySerial := map[];
      for i := 0 to |rows|
        invariant forall k :: 0 <= k < i ==> Key(rows[k]) in bySerial && bySerial[Key(rows[k])] == k
        invariant forall k :: k in bySerial ==> bySerial[k] < i && Key(rows[bySerial[k]]) == k
      {
        var key := Key(rows[i]);
        if key in bySerial {
          assert Key(rows[bySerial[key]]) == key;
          return false;
        }
        bySerial := bySerial[key := i];
      }
      ok := true;
    }

    method IndexNames() returns (ok: bool)
      modifies this`byName
      ensures ok <==> ValidNamesUnique(rows)
      ensures ok ==> forall k :: 0 <= k < |rows| && rows[k].Kind() == 'V' ==> rows[k].name in byName && byName[rows[k].name] == k
      ensures ok ==> forall k :: k in byName ==> byName[k] < |rows| && rows[byName[k]].name == k && rows[byName[k]].Kind() == 'V'
    {
      byName := map[];
      for i := 0 to |rows|
        invariant forall k :: 0 <= k < i && rows[k].Kind() == 'V' ==> rows[k].name in byName && byName[rows[k].name] == k
        invariant forall k :: k in byName ==> byName[k] < i && rows[byName[k]].name == k && rows[byName[k]].Kind() == 'V'
      {
        var name := rows[i].name;
        if rows[i].Kind() == 'V' {
          if name in byName {
            assert rows[byName[name]].name == name;
            return false;
          }
          byName := byName[name := i];
        }
      }
      ok := true;
    }

    /** Builds both indexes; fails on a clash. */
    method CreateIndexes() returns (ok: bool)
      modifies this
      ensures rows == old(rows)
      ensures ok <==> SerialsUnique(rows) && (unique ==> ValidNamesUnique(rows))
      ensures ok ==> Valid() && byName.Keys == ValidNames(rows, unique)
    {
      byName := map[];
      ok := IndexSerials();
      if ok && unique {
        ok := IndexNames();
      }
    }

    method Lookup(key: string) returns (i: int)
      requires Valid()
      ensures i == FindKey(rows, key) && (i < 0 <==> key !in bySerial)
    {
      i := if key in bySerial then bySerial[key] else -1;
      assert i >= 0 ==> Key(rows[i]) == key;
    }

    /** Appends a row and enters it into both indexes. */
    method Append(row: Row)
      requires Valid() && Key(row) !in bySerial && row.Kind() == 'V' && row.name !in byName
      modifies this
      ensures Valid() && rows == old(rows) + [row]
      ensures byName.Keys == old(byName).Keys + (if unique then {row.name} else {})
    {
      bySerial := bySerial[Key(row) := |rows|];
      if unique {
        byName := byName[row.name := |rows|];
      }
      rows := rows + [row];
    }

    method InsertRow(c: Certificate) returns (ok: bool)
      requires Valid()
      modifies this
      ensures Valid()
      ensures var r := Insert(old(rows), old(byName).Keys, c);
              ok == r.Some? && rows == (if ok then r.value else old(rows))
      ensures byName.Keys == old(byName).Keys + (if ok && unique then {c.NameField()} else {})
    {
      var row := c.ValidRow();
      var clash := Lookup(Key(row));
      if clash >= 0 || (unique && row.name in byName) {
        return false;
      }
      Append(row);
      ok := true;
    }

    /** Issues a certificate: the name and then the serial must be free, and then the insertion cannot fail. */
    method Issue(c: Certificate) returns (ok: bool)
      requires Valid()
      modifies this
      ensures Valid()
      ensures var r := Insert(old(rows), old(byName).Keys, c);
              ok == r.Some? && rows == (if ok then r.value else old(rows))
      ensures byName.Keys == old(byName).Keys + (if ok && unique then {c.NameField()} else {})
    {
      if unique && c.NameField() in byName {
        return false;
      }
      var clash := Lookup(StripZeros(c.SerialField()));
      if clash >= 0 {
        return false;
      }
      ok := InsertRow(c);
      assert ok;
    }

    /** Overwrites type and revocation date of one row; both indexes keep pointing at it. */
    method Retype(i: nat, kind: char, revoked: string)
      requires Valid() && i < |rows| && kind != 'V'
      modifies this`rows
      ensures Valid()
      ensures rows == old(rows)[i := old(rows)[i].(kind := [kind], revoked := revoked)]
    {
      rows := rows[i := rows[i].(kind := [kind], revoked := revoked)];
      assert forall k :: 0 <= k < |rows| ==> Key(rows[k]) == Key(old(rows)[k]) && rows[k].name == old(rows)[k].name;
    }

    /** Revokes a certificate; one that is not present is first added as valid and then looked up again. */
    method DoRevoke(asn1: Asn1, c: Certificate, how: RevocationType, arg: string, now: string) returns (ok: bool)
      requires Valid()
      modifies this
      ensures Valid()
      ensures var r := Revoke(asn1, old(rows), old(byName).Keys, c, how, arg, now);
              ok == r.Some? && (ok ==> rows == r.value)
      ensures !ok ==> rows == old(rows) || Insert(old(rows), old(byName).Keys, c) == Some(rows)
      decreases FindKey(rows, StripZeros(c.SerialField())) < 0
    {
      var i := Lookup(StripZeros(c.SerialField()));
      if i < 0 {
        ok := InsertRow(c);
        if !ok || how.StatusValid? {
          return;
        }
        RevokeAfterInsert(asn1, old(rows), old(byName).Keys, byName.Keys, c, how, arg, now);
        ok := DoRevoke(asn1, c, how, arg, now);
      } else if rows[i].name != c.NameField() || how.StatusValid? || rows[i].Kind() == 'R' {
        ok := false;
      } else {
        var text := MakeRevocationStr(asn1, how, arg, now);
        if text.None? {
          return false;
        }
        Retype(i, 'R', text.value);
        ok := true;
      }
    }

    /**
      Marks expired rows in place and counts them; stops with -1 at the first
      valid row whose expiry date does not parse. No other row is touched.
     */
    method DoUpdateDb(asn1: Asn1, passed: set<string>) returns (count: int)
      requires Valid()
      modifies this`rows
      ensures Valid() && |rows| == |old(rows)|
      ensures count < 0 <==> exists i :: 0 <= i < |old(rows)| && old(rows)[i].Kind() == 'V' && !asn1.isTime(old(rows)[i].expiry)
      ensures count >= 0 ==> forall i :: 0 <= i < |rows| ==>
                rows[i] == if old(rows)[i].Kind() == 'V' && old(rows)[i].expiry in passed then old(rows)[i].(kind := "E") else old(rows)[i]
      ensures count >= 0 ==> forall i :: 0 <= i < |rows| && rows[i].Kind() == 'V' ==> rows[i].expiry !in passed
      ensures count >= 0 ==> count == |set i | 0 <= i < |old(rows)| && old(rows)[i].Kind() == 'V' && old(rows)[i].expiry in passed|
      ensures count == 0 ==> rows == old(rows)
      ensures count < 0 ==> forall i :: 0 <= i < |rows| ==>
                rows[i] == if i < FirstUndated(asn1, old(rows)) && old(rows)[i].Kind() == 'V' && old(rows)[i].expiry in passed
                           then old(rows)[i].(kind := "E") else old(rows)[i]
      ensures count >= 0 ==> rows == Expire(old(rows), passed)
    {
      ghost var before := rows;
      ghost var stopped, counted;
      count, stopped, counted := ScanRows(asn1, passed);
      UpdateMeans(asn1, before, passed, stopped, rows, counted, count);
    }

    /** Goes over the rows in order; `stopped` is the row whose date does not parse, or their number. */
    method ScanRows(asn1: Asn1, passed: set<string>) returns (count: int, ghost stopped: nat, ghost counted: nat)
      requires Valid()
      modifies this`rows
      ensures Valid() && stopped <= |old(rows)| && Scanned(asn1, old(rows), passed, stopped, rows, counted)
      ensures stopped < |old(rows)| ==> Undated(asn1, old(rows)[stopped])
      ensures count == if stopped < |old(rows)| then -1 else counted
    {
      ghost var before := rows;
      var i := 0;
      count, stopped, counted := 0, 0, 0;
      while i < |rows|
        invariant Valid() && i == stopped <= |rows| == |before| && count == counted
        invariant Scanned(asn1, before, passed, stopped, rows, counted)
      {
        var next := ScanRow(asn1, i, passed, count, before);
        if next < 0 {
          return next, stopped, counted;
        }
        count, i := next, i + 1;
        stopped, counted := i, next;
      }
    }

    /** One step of the scan: the new count, or -1 at a date that does not parse. */
    method ScanRow(asn1: Asn1, i: nat, passed: set<string>, count: nat, ghost before: seq<Row>) returns (count': int)
      requires Valid() && i < |rows| && Scanned(asn1, before, passed, i, rows, count)
      modifies this`rows
      ensures Valid() && |rows| == |before| && -1 <= count'
      ensures if count' < 0 then Undated(asn1, before[i]) && rows == old(rows) else Scanned(asn1, before, passed, i + 1, rows, count')
    {
      ScanGoesOn(asn1, before, i);
      ExpireToMore(before, passed, i);
      if rows[i].Kind() == 'V' && !asn1.isTime(rows[i].expiry) {
        return -1;
      }
      var changed := ExpireAt(i, passed);
      count' := if changed then count + 1 else count;
    }

    /** Marks one row if it is valid and its date has passed. */
    method ExpireAt(i: nat, passed: set<string>) returns (changed: bool)
      requires Valid() && i < |rows|
      modifies this`rows
      ensures Valid() && changed == (old(rows)[i].Kind() == 'V' && old(rows)[i].expiry in passed)
      ensures rows == if changed then old(rows)[i := old(rows)[i].(kind := "E")] else old(rows)
    {
      changed := rows[i].Kind() == 'V' && rows[i].expiry in passed;
      if changed {
        Retype(i, 'E', rows[i].revoked);
      }
    }

    /** The row that a status query finds, for the text typed by the user. */
    method CertificateStatus(typed: string) returns (kind: Option<char>)
      requires Valid()
      ensures var i := FindKey(rows, StripZeros(StatusKey(typed)));
              kind == (if i < 0 then None else Some(rows[i].Kind()))
    {
      var key := BuildStatusKey(typed);
      var i := Lookup(StripZeros(key));
      kind := if i < 0 then None else Some(rows[i].Kind());
    }
  }
}
