/**
  What every database operation keeps, over any sequence of operations: the
  database stays loadable and indexable, revocation is final, no row becomes
  valid again, and serial, name and expiry of a row never change.
 */
module DatabaseInvariant {

  import opened Options
  import opened SerialNumbers
  import opened RevocationInfo
  import opened CaDatabase
  import TextDatabase

  /** One operation on a freshly loaded database. */
  datatype Action =
    | IssueCertificate(certificate: Certificate)
    | RevokeCertificate(certificate: Certificate, how: RevocationType, arg: string, now: string)
    | ExpireCertificates(passed: set<string>)

  /** The rows after an action; `None` when the action is refused. */
  function Apply(asn1: Asn1, rows: seq<Row>, unique: bool, a: Action): Option<seq<Row>> {
    match a
    case IssueCertificate(c) => Insert(rows, ValidNames(rows, unique), c)
    case RevokeCertificate(c, how, arg, now) => Revoke(asn1, rows, ValidNames(rows, unique), c, how, arg, now)
    case ExpireCertificates(passed) => Some(Expire(rows, passed))
  }

  /** Applies the actions in order; a refused one leaves the rows alone. */
  function ApplyAll(asn1: Asn1, rows: seq<Row>, unique: bool, actions: seq<Action>): seq<Row>
    decreases |actions|
  {
    if actions == [] then rows
    else
      var next := Apply(asn1, rows, unique, actions[0]);
      ApplyAll(asn1, if next.Some? then next.value else rows, unique, actions[1..])
  }

  /** Dates in the syntax that the load check asks for; the revocation time is a UTCTime. */
  predicate WellDated(asn1: Asn1, a: Action) {
    match a
    case IssueCertificate(c) => asn1.isTime(c.expiry)
    case RevokeCertificate(c, how, arg, now) => asn1.isTime(c.expiry) && asn1.isUtc(now) && ',' !in now
    case ExpireCertificates(_) => true
  }

  ghost predicate RowEvolves(r: Row, r': Row) {
    && r'.serial == r.serial && r'.name == r.name && r'.expiry == r.expiry && r'.file == r.file
    && (r.Kind() == 'R' ==> r' == r)
    && (r'.Kind() == 'V' ==> r' == r)
  }

  /** Rows are only appended, and those present evolve. */
  ghost predicate Evolves(rows: seq<Row>, rows': seq<Row>) {
    |rows| <= |rows'| && forall i :: 0 <= i < |rows| ==> RowEvolves(rows[i], rows'[i])
  }

  lemma SerialFieldIsOk(c: Certificate)
    ensures SerialFieldOk(c.SerialField())
  {
    if c.serial < 0 {
      var h := BytesToHex(-c.serial);
      HexShape(-c.serial, h);
      SignedIsOk(c.SerialField(), h);
    } else {
      TextShape(c.serial, c.SerialField());
    }
  }

  lemma HexShape(n: nat, h: string)
    requires n > 0 && h == BytesToHex(n)
    ensures IsUpperHexText(h) && |h| % 2 == 0 && |h| >= 2
  {
    BytesToHexValue(n);
  }

  lemma TextShape(n: nat, text: string)
    requires text == SerialText(n)
    ensures SerialFieldOk(text)
  {
    SerialTextDenotes(n);
    assert IsUpperHex(text[0]);
  }

  lemma SignedIsOk(text: string, digits: string)
    requires text == "-" + digits && IsUpperHexText(digits) && |digits| % 2 == 0 && |digits| >= 2
    ensures SerialFieldOk(text)
  {
    assert Magnitude(text) == digits;
  }

  lemma InsertKeeps(asn1: Asn1, rows: seq<Row>, unique: bool, taken: set<string>, c: Certificate)
    requires Sound(asn1, rows, unique) && asn1.isTime(c.expiry)
    requires ValidNames(rows, unique) <= taken
    requires Insert(rows, taken, c).Some?
    ensures Sound(asn1, Insert(rows, taken, c).value, unique)
    ensures Evolves(rows, Insert(rows, taken, c).value)
  {
    SerialFieldIsOk(c);
    var rows' := Insert(rows, taken, c).value;
    var n := |rows|;
    assert RowOk(asn1, rows'[n]);
    assert Key(rows'[n]) == StripZeros(c.SerialField());
    forall i | 0 <= i < n
      ensures Key(rows'[i]) != Key(rows'[n]) && RowEvolves(rows[i], rows'[i]) && RowOk(asn1, rows'[i])
      ensures unique && rows'[i].Kind() == 'V' ==> rows'[i].name != rows'[n].name
    {
      assert rows'[i] == rows[i] && RowOk(asn1, rows[i]);
      assert unique && rows[i].Kind() == 'V' ==> rows[i].name in ValidNames(rows, unique);
    }
  }

  lemma MarkKeeps(asn1: Asn1, rows: seq<Row>, unique: bool, i: nat, how: RevocationType, arg: string, now: string)
    requires Sound(asn1, rows, unique) && i < |rows| && rows[i].Kind() != 'R'
    requires asn1.isUtc(now) && ',' !in now
    requires MarkRevoked(asn1, rows, i, how, arg, now).Some?
    ensures Sound(asn1, MarkRevoked(asn1, rows, i, how, arg, now).value, unique)
    ensures Evolves(rows, MarkRevoked(asn1, rows, i, how, arg, now).value)
  {
    var text := PrintRevocation(asn1, how, arg, now).value;
    MarkedRowOk(asn1, rows[i], how, arg, now);
    ReplaceKeeps(asn1, rows, unique, i, rows[i].(kind := "R", revoked := text));
  }

  lemma MarkedRowOk(asn1: Asn1, r: Row, how: RevocationType, arg: string, now: string)
    requires RowOk(asn1, r) && asn1.isUtc(now) && ',' !in now && PrintRevocation(asn1, how, arg, now).Some?
    ensures RowOk(asn1, r.(kind := "R", revoked := PrintRevocation(asn1, how, arg, now).value))
  {
    RoundTrip(asn1, how, arg, now);
  }

  /** A row marked as revoked disturbs nothing else. */
  lemma ReplaceKeeps(asn1: Asn1, rows: seq<Row>, unique: bool, i: nat, r: Row)
    requires Sound(asn1, rows, unique) && i < |rows| && rows[i].Kind() != 'R' && RowOk(asn1, r)
    requires r == rows[i].(kind := "R", revoked := r.revoked)
    ensures Sound(asn1, rows[i := r], unique) && Evolves(rows, rows[i := r])
  {
    var rows' := rows[i := r];
    forall k | 0 <= k < |rows|
      ensures RowOk(asn1, rows'[k]) && RowEvolves(rows[k], rows'[k])
      ensures Key(rows'[k]) == Key(rows[k]) && rows'[k].name == rows[k].name
      ensures rows'[k].Kind() == 'V' ==> rows'[k] == rows[k]
    {
      assert RowOk(asn1, rows[k]);
    }
    StillUnique(rows, rows');
  }

  lemma StillUnique(rows: seq<Row>, rows': seq<Row>)
    requires SerialsUnique(rows) && |rows'| == |rows|
    requires forall k :: 0 <= k < |rows| ==> Key(rows'[k]) == Key(rows[k]) && (rows'[k].Kind() == 'V' ==> rows'[k] == rows[k])
    ensures SerialsUnique(rows') && (ValidNamesUnique(rows) ==> ValidNamesUnique(rows'))
  {
  }

  lemma EvolvesTransitive(a: seq<Row>, b: seq<Row>, c: seq<Row>)
    requires Evolves(a, b) && Evolves(b, c)
    ensures Evolves(a, c)
  {
    forall i | 0 <= i < |a|
      ensures RowEvolves(a[i], c[i])
    {
      assert RowEvolves(a[i], b[i]) && RowEvolves(b[i], c[i]);
    }
  }

  lemma RevokeKeeps(asn1: Asn1, rows: seq<Row>, unique: bool, c: Certificate, how: RevocationType, arg: string, now: string)
    requires Sound(asn1, rows, unique) && asn1.isTime(c.expiry) && asn1.isUtc(now) && ',' !in now
    requires Revoke(asn1, rows, ValidNames(rows, unique), c, how, arg, now).Some?
    ensures Sound(asn1, Revoke(asn1, rows, ValidNames(rows, unique), c, how, arg, now).value, unique)
    ensures Evolves(rows, Revoke(asn1, rows, ValidNames(rows, unique), c, how, arg, now).value)
  {
    var taken := ValidNames(rows, unique);
    var known := FindKey(rows, StripZeros(c.SerialField()));
    if known < 0 {
      InsertKeeps(asn1, rows, unique, taken, c);
      if !how.StatusValid? {
        var added := Insert(rows, taken, c).value;
        MarkKeeps(asn1, added, unique, |rows|, how, arg, now);
        EvolvesTransitive(rows, added, Revoke(asn1, rows, taken, c, how, arg, now).value);
      }
    } else {
      MarkKeeps(asn1, rows, unique, known, how, arg, now);
    }
  }

  lemma ExpireKeeps(asn1: Asn1, rows: seq<Row>, unique: bool, passed: set<string>)
    requires Sound(asn1, rows, unique)
    ensures Sound(asn1, Expire(rows, passed), unique) && Evolves(rows, Expire(rows, passed))
  {
    var rows' := Expire(rows, passed);
    forall i | 0 <= i < |rows|
      ensures Key(rows'[i]) == Key(rows[i]) && RowEvolves(rows[i], rows'[i]) && RowOk(asn1, rows'[i])
    {
      assert RowOk(asn1, rows[i]);
    }
  }

  /** Every action that succeeds keeps the invariant and lets rows only evolve. */
  lemma ApplyKeeps(asn1: Asn1, rows: seq<Row>, unique: bool, a: Action)
    requires Sound(asn1, rows, unique) && WellDated(asn1, a)
    requires Apply(asn1, rows, unique, a).Some?
    ensures Sound(asn1, Apply(asn1, rows, unique, a).value, unique)
    ensures Evolves(rows, Apply(asn1, rows, unique, a).value)
  {
    match a
    case IssueCertificate(c) => InsertKeeps(asn1, rows, unique, ValidNames(rows, unique), c);
    case RevokeCertificate(c, how, arg, now) => RevokeKeeps(asn1, rows, unique, c, how, arg, now);
    case ExpireCertificates(passed) => ExpireKeeps(asn1, rows, unique, passed);
  }

  /** The invariant over any sequence of actions, refused or not. */
  lemma {:induction false} EveryRunKeeps(asn1: Asn1, rows: seq<Row>, unique: bool, actions: seq<Action>)
    requires Sound(asn1, rows, unique)
    requires forall i :: 0 <= i < |actions| ==> WellDated(asn1, actions[i])
    ensures Sound(asn1, ApplyAll(asn1, rows, unique, actions), unique)
    ensures Evolves(rows, ApplyAll(asn1, rows, unique, actions))
    decreases |actions|
  {
    if actions != [] {
      assert WellDated(asn1, actions[0]);
      var next := Apply(asn1, rows, unique, actions[0]);
      if next.Some? {
        ApplyKeeps(asn1, rows, unique, actions[0]);
        EveryRunKeeps(asn1, next.value, unique, actions[1..]);
        EvolvesTransitive(rows, next.value, ApplyAll(asn1, rows, unique, actions));
      } else {
        EveryRunKeeps(asn1, rows, unique, actions[1..]);
      }
    }
  }

  // ---------------------------------------------------------------- reloading

  function AllFields(rows: seq<Row>): (f: seq<TextDatabase.Fields>)
    ensures |f| == |rows| && forall i :: 0 <= i < |f| ==> f[i] == rows[i].Fields()
  {
    seq(|rows|, i requires 0 <= i < |rows| => rows[i].Fields())
  }

  /** The written text, or what reading it back gives. */
  function Saved(rows: seq<Row>): string {
    TextDatabase.WriteRows(AllFields(rows))
  }

  /** Text that the database file can carry in any field but the last. */
  predicate Plain(s: string) {
    TextDatabase.OneLine(s) && TextDatabase.NoFinalBackslash(s)
  }

  predicate PlainRow(r: Row) {
    && (r.kind == "" || r.kind[0] != '#')
    && Plain(r.kind) && Plain(r.expiry) && Plain(r.revoked) && Plain(r.serial) && Plain(r.file)
    && TextDatabase.OneLine(r.name)
  }

  /** A saved database reads back as the same rows exactly when its rows are plain. */
  lemma SavedReadsBack(rows: seq<Row>)
    ensures TextDatabase.ReadRows(Saved(rows)) == Some(AllFields(rows)) <==> forall i :: 0 <= i < |rows| ==> PlainRow(rows[i])
  {
    var f := AllFields(rows);
    TextDatabase.TextRoundTrip(f);
    forall i | 0 <= i < |rows|
      ensures TextDatabase.Storable(f[i]) <==> PlainRow(rows[i])
    {
      var r := rows[i];
      assert f[i] == [r.kind, r.expiry, r.revoked, r.serial, r.file, r.name];
      if TextDatabase.Storable(f[i]) {
        assert TextDatabase.OneLine(f[i][0]) && TextDatabase.OneLine(f[i][1]) && TextDatabase.OneLine(f[i][2])
            && TextDatabase.OneLine(f[i][3]) && TextDatabase.OneLine(f[i][4]) && TextDatabase.OneLine(f[i][5]);
        assert TextDatabase.NoFinalBackslash(f[i][0]) && TextDatabase.NoFinalBackslash(f[i][1])
            && TextDatabase.NoFinalBackslash(f[i][2]) && TextDatabase.NoFinalBackslash(f[i][3])
            && TextDatabase.NoFinalBackslash(f[i][4]);
      }
    }
  }

  /** Revoking with a hold instruction that ends in a backslash, if the library knows one, writes a database that reads back different. */
  lemma HoldBackslashLosesRow(asn1: Asn1, rows: seq<Row>, i: nat, arg: string, now: string)
    requires i < |rows| && arg != "" && arg[|arg| - 1] == '\\'
    requires MarkRevoked(asn1, rows, i, HoldInstruction, arg, now).Some?
    ensures var rows' := MarkRevoked(asn1, rows, i, HoldInstruction, arg, now).value;
            TextDatabase.ReadRows(Saved(rows')) != Some(AllFields(rows'))
  {
    var rows' := MarkRevoked(asn1, rows, i, HoldInstruction, arg, now).value;
    var text := rows'[i].revoked;
    assert text[|text| - 1] == '\\';
    assert !PlainRow(rows'[i]);
    SavedReadsBack(rows');
  }

  predicate PlainAction(a: Action) {
    match a
    case IssueCertificate(c) => Plain(c.expiry) && TextDatabase.OneLine(c.subject)
    case RevokeCertificate(c, how, arg, now) =>
      Plain(c.expiry) && TextDatabase.OneLine(c.subject) && Plain(arg) && Plain(now)
    case ExpireCertificates(_) => true
  }

  lemma HexIsPlain(s: string)
    requires IsUpperHexText(s) && s != ""
    ensures Plain(s) && Plain("-" + s)
  {
    assert IsUpperHex(s[|s| - 1]);
  }

  lemma SerialFieldIsPlain(c: Certificate)
    ensures Plain(c.SerialField())
  {
    if c.serial < 0 {
      BytesToHexValue(-c.serial);
      HexIsPlain(BytesToHex(-c.serial));
    } else {
      SerialTextDenotes(c.serial);
      HexIsPlain(SerialText(c.serial));
    }
  }

  lemma PrintedIsPlain(asn1: Asn1, how: RevocationType, arg: string, now: string)
    requires Plain(arg) && Plain(now)
    ensures var text := PrintRevocation(asn1, how, arg, now);
            text.Some? ==> Plain(text.value)
  {
    match how
    case CrlReason =>
      if ReasonIndex(arg, 8) >= 0 {
        ReasonIsPlain(ReasonIndex(arg, 8));
        JoinedIsPlain(now, CRL_REASONS[ReasonIndex(arg, 8)]);
      }
    case HoldInstruction => ThreeArePlain(now, 8, arg);
    case KeyCompromise => ThreeArePlain(now, 9, arg);
    case CaCompromise => ThreeArePlain(now, 10, arg);
    case _ =>
  }

  lemma ReasonIsPlain(i: nat)
    requires i < |CRL_REASONS|
    ensures Plain(CRL_REASONS[i])
  {
  }

  lemma JoinedIsPlain(a: string, b: string)
    requires Plain(a) && Plain(b)
    ensures Plain(a + "," + b)
  {
  }

  lemma ThreeArePlain(now: string, i: nat, arg: string)
    requires Plain(now) && Plain(arg) && i < |CRL_REASONS|
    ensures Plain(now + "," + CRL_REASONS[i] + "," + arg)
  {
    ReasonIsPlain(i);
    JoinedIsPlain(now, CRL_REASONS[i]);
    JoinedIsPlain(now + "," + CRL_REASONS[i], arg);
  }

  lemma ApplyKeepsPlain(asn1: Asn1, rows: seq<Row>, unique: bool, a: Action)
    requires forall i :: 0 <= i < |rows| ==> PlainRow(rows[i])
    requires PlainAction(a) && Apply(asn1, rows, unique, a).Some?
    ensures forall i :: 0 <= i < |Apply(asn1, rows, unique, a).value| ==> PlainRow(Apply(asn1, rows, unique, a).value[i])
  {
    match a
    case IssueCertificate(c) => SerialFieldIsPlain(c);
    case RevokeCertificate(c, how, arg, now) => RevokeKeepsPlain(asn1, rows, ValidNames(rows, unique), c, how, arg, now);
    case ExpireCertificates(passed) => ExpireKeepsPlain(rows, passed);
  }

  lemma RevokeKeepsPlain(asn1: Asn1, rows: seq<Row>, taken: set<string>, c: Certificate, how: RevocationType, arg: string, now: string)
    requires forall i :: 0 <= i < |rows| ==> PlainRow(rows[i])
    requires PlainAction(RevokeCertificate(c, how, arg, now)) && Revoke(asn1, rows, taken, c, how, arg, now).Some?
    ensures var rows' := Revoke(asn1, rows, taken, c, how, arg, now).value;
            forall i :: 0 <= i < |rows'| ==> PlainRow(rows'[i])
  {
    SerialFieldIsPlain(c);
    var known := FindKey(rows, StripZeros(c.SerialField()));
    var (base, at) := if known < 0 then (rows + [c.ValidRow()], |rows|) else (rows, known);
    MarkKeepsPlain(asn1, base, at, how, arg, now);
  }

  lemma ExpireKeepsPlain(rows: seq<Row>, passed: set<string>)
    requires forall i :: 0 <= i < |rows| ==> PlainRow(rows[i])
    ensures forall i :: 0 <= i < |Expire(rows, passed)| ==> PlainRow(Expire(rows, passed)[i])
  {
    forall i | 0 <= i < |Expire(rows, passed)|
      ensures PlainRow(Expire(rows, passed)[i])
    {
      assert PlainRow(rows[i]);
    }
  }

  lemma MarkKeepsPlain(asn1: Asn1, rows: seq<Row>, i: nat, how: RevocationType, arg: string, now: string)
    requires forall k :: 0 <= k < |rows| ==> PlainRow(rows[k])
    requires i < |rows| && Plain(arg) && Plain(now)
    ensures var marked := MarkRevoked(asn1, rows, i, how, arg, now);
            marked.Some? ==> forall k :: 0 <= k < |rows| ==> |marked.value| == |rows| && PlainRow(marked.value[k])
  {
    PrintedIsPlain(asn1, how, arg, now);
    assert PlainRow(rows[i]);
  }

  /**
    After any sequence of actions on plain input, the text written to disk reads
    back as the same rows, and those pass the load check and re-indexing.
   */
  lemma {:induction false} EveryRunReloads(asn1: Asn1, rows: seq<Row>, unique: bool, actions: seq<Action>)
    requires Sound(asn1, rows, unique) && forall i :: 0 <= i < |rows| ==> PlainRow(rows[i])
    requires forall i :: 0 <= i < |actions| ==> WellDated(asn1, actions[i]) && PlainAction(actions[i])
    ensures var last := ApplyAll(asn1, rows, unique, actions);
            TextDatabase.ReadRows(Saved(last)) == Some(AllFields(last)) && Sound(asn1, last, unique)
  {
    EveryRunKeeps(asn1, rows, unique, actions);
    EveryRunStaysPlain(asn1, rows, unique, actions);
    SavedReadsBack(ApplyAll(asn1, rows, unique, actions));
  }

  lemma {:induction false} EveryRunStaysPlain(asn1: Asn1, rows: seq<Row>, unique: bool, actions: seq<Action>)
    requires forall i :: 0 <= i < |rows| ==> PlainRow(rows[i])
    requires forall i :: 0 <= i < |actions| ==> PlainAction(actions[i])
    ensures forall i :: 0 <= i < |ApplyAll(asn1, rows, unique, actions)| ==> PlainRow(ApplyAll(asn1, rows, unique, actions)[i])
    decreases |actions|
  {
    if actions != [] {
      var next := Apply(asn1, rows, unique, actions[0]);
      assert PlainAction(actions[0]);
      if next.Some? {
        ApplyKeepsPlain(asn1, rows, unique, actions[0]);
      }
      EveryRunStaysPlain(asn1, if next.Some? then next.value else rows, unique, actions[1..]);
    }
  }

  // ---------------------------------------------------------------- lookups

  /**
    An upper-case key finds a row if and only if the row's serial denotes the
    number of the key and is spelled in upper case behind its leading zeros.
    Nothing is asked of the other rows.
   */
  lemma LookupIsNumeric(rows: seq<Row>, text: string, i: nat)
    requires SerialsUnique(rows) && i < |rows| && IsSerial(rows[i].serial)
    requires IsUpperHexText(text)
    ensures FindKey(rows, StripZeros(text)) == i <==>
            SerialValue(rows[i].serial) == HexValue(text) && IsUpperHexText(StripZeros(rows[i].serial))
  {
    KeyMatches(rows[i].serial, text);
    var f := FindKey(rows, StripZeros(text));
    if Key(rows[i]) == StripZeros(text) {
      assert f >= 0 && Key(rows[f]) == Key(rows[i]);
    }
  }

  /** Revocation and responder lookups print the number; a status query may be typed in any case. */
  lemma LookupsFindTheNumber(rows: seq<Row>, n: nat, typed: string, i: nat)
    requires SerialsUnique(rows) && i < |rows| && IsSerial(rows[i].serial)
    requires IsHexText(typed)
    ensures FindKey(rows, StripZeros(SerialText(n))) == i <==>
            SerialValue(rows[i].serial) == n && IsUpperHexText(StripZeros(rows[i].serial))
    ensures FindKey(rows, StripZeros(StatusKey(typed))) == i <==>
            SerialValue(rows[i].serial) == HexValue(typed) && IsUpperHexText(StripZeros(rows[i].serial))
  {
    SerialTextDenotes(n);
    LookupIsNumeric(rows, SerialText(n), i);
    StatusKeyDenotes(typed);
    LookupIsNumeric(rows, StatusKey(typed), i);
  }
}
