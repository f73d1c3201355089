/**
  The revocation field of a database row: `revtime[,reason[,extra]]`.

  `PrintRevocation`/`MakeRevocationStr` model the printer, `ParseRevocation`/
  `UnpackRevinfo` the parser, which duplicates the text and cuts it in place at
  its first two commas.
 */
module RevocationInfo {

  import opened Options
  import opened Texts

  type Oid = string

  /** The library checks the two routines call: time syntax and object lookup. */
  datatype Asn1 = Asn1(isTime: string -> bool, isUtc: string -> bool, isGeneralized: string -> bool,
                       oid: string -> Option<Oid>)

  datatype RevocationType = StatusValid | NoReason | CrlReason | HoldInstruction | KeyCompromise | CaCompromise

  datatype Revocation = Revocation(time: string, reason: int, hold: Option<Oid>, compromise: Option<string>)

  const NOSTATUS := -1
  const KEYCOMPROMISE := 1
  const CACOMPROMISE := 2
  const CERTIFICATEHOLD := 6
  const REMOVEFROMCRL := 8

  const CRL_REASONS: seq<string> :=
    ["unspecified", "keyCompromise", "CACompromise", "affiliationChanged", "superseded",
     "cessationOfOperation", "certificateHold", "removeFromCRL",
     "holdInstruction", "keyTime", "CAkeyTime"]

  function LowerChar(c: char): char {
    if 'A' <= c <= 'Z' then c - 'A' + 'a' else c
  }

  predicate SameIgnoringCase(a: string, b: string) {
    |a| == |b| && forall i :: 0 <= i < |a| ==> LowerChar(a[i]) == LowerChar(b[i])
  }

  /** Position of the first of the first `limit` reason strings that matches `text`, or -1. */
  function ReasonIndex(text: string, limit: nat, from: nat := 0): (r: int)
    requires from <= limit <= |CRL_REASONS|
    ensures r == -1 || from <= r < limit
    ensures r >= 0 ==> SameIgnoringCase(text, CRL_REASONS[r])
    ensures forall k :: from <= k < (if r < 0 then limit else r) ==> !SameIgnoringCase(text, CRL_REASONS[k])
    decreases limit - from
  {
    if from == limit then -1
    else if SameIgnoringCase(text, CRL_REASONS[from]) then from
    else ReasonIndex(text, limit, from + 1)
  }

  // ---------------------------------------------------------------- printer

  function PrintRevocation(asn1: Asn1, kind: RevocationType, arg: string, now: string): Option<string> {
    match kind
    case StatusValid => Some(now)
    case NoReason => Some(now)
    case CrlReason =>
      var i := ReasonIndex(arg, 8);
      if i < 0 then None else Some(now + "," + CRL_REASONS[i])
    case HoldInstruction =>
      if asn1.oid(arg).None? then None else Some(now + "," + CRL_REASONS[8] + "," + arg)
    case KeyCompromise =>
      if !asn1.isGeneralized(arg) then None else Some(now + "," + CRL_REASONS[9] + "," + arg)
    case CaCompromise =>
      if !asn1.isGeneralized(arg) then None else Some(now + "," + CRL_REASONS[10] + "," + arg)
  }

  /** Appends to a C string held in `size` bytes, cutting what does not fit. */
  function Strlcat(dst: string, src: string, size: nat): string
    requires |dst| < size
  {
    if |dst| + |src| < size then dst + src else (dst + src)[..size - 1]
  }

  method FindReason(text: string, limit: nat) returns (index: int)
    requires limit <= |CRL_REASONS|
    ensures index == ReasonIndex(text, limit)
  {
    var i := 0;
    while i < limit
      invariant i <= limit && ReasonIndex(text, limit) == ReasonIndex(text, limit, i)
    {
      if SameIgnoringCase(text, CRL_REASONS[i]) {
        return i;
      }
      i := i + 1;
    }
    index := -1;
  }

  /** The printer: picks the reason and the extra argument, sizes a buffer and fills it piece by piece. */
  method MakeRevocationStr(asn1: Asn1, kind: RevocationType, arg: string, now: string) returns (r: Option<string>)
    ensures r == PrintRevocation(asn1, kind, arg, now)
  {
    var reason: Option<string>, other: Option<string> := None, None;
    match kind {
      case StatusValid =>
      case NoReason =>
      case CrlReason =>
        var i := FindReason(arg, 8);
        if i < 0 {
          return None;
        }
        reason := Some(CRL_REASONS[i]);
      case HoldInstruction =>
        if asn1.oid(arg).None? {
          return None;
        }
        reason, other := Some("holdInstruction"), Some(arg);
      case KeyCompromise =>
        if !asn1.isGeneralized(arg) {
          return None;
        }
        reason, other := Some("keyTime"), Some(arg);
      case CaCompromise =>
        if !asn1.isGeneralized(arg) {
          return None;
        }
        reason, other := Some("CAkeyTime"), Some(arg);
    }
    var size := |now| + 1;
    if reason.Some? {
      size := size + |reason.value| + 1;
    }
    if other.Some? {
      size := size + |other.value| + 1;
    }
    var str := Strlcat("", now, size);
    assert str == now;
    if reason.Some? {
      str := Strlcat(str, ",", size);
      str := Strlcat(str, reason.value, size);
    }
    if other.Some? {
      str := Strlcat(str, ",", size);
      str := Strlcat(str, other.value, size);
    }
    r := Some(str);
  }

  // ---------------------------------------------------------------- parser

  function Interpret(asn1: Asn1, time: string, reason: Option<string>, extra: Option<string>): Option<Revocation> {
    if !asn1.isUtc(time) then None
    else if reason.None? then Some(Revocation(time, NOSTATUS, None, None))
    else
      var i := ReasonIndex(reason.value, |CRL_REASONS|);
      if i < 0 then None
      else if i == 7 then Some(Revocation(time, REMOVEFROMCRL, None, None))
      else if i == 8 then
        if extra.None? || asn1.oid(extra.value).None? then None
        else Some(Revocation(time, CERTIFICATEHOLD, asn1.oid(extra.value), None))
      else if i == 9 || i == 10 then
        if extra.None? || !asn1.isGeneralized(extra.value) then None
        else Some(Revocation(time, if i == 9 then KEYCOMPROMISE else CACOMPROMISE, None, extra))
      else Some(Revocation(time, i, None, None))
  }

  /** Time, reason and extra text: what comes before, between and after the first two commas. */
  function Pieces(text: string): (string, Option<string>, Option<string>) {
    var i := IndexOf(text, ',');
    if i == |text| then (text[..i], None, None)
    else
      var rest := text[i + 1..];
      var j := IndexOf(rest, ',');
      (text[..i], Some(rest[..j]), if j == |rest| then None else Some(rest[j + 1..]))
  }

  function ParseRevocation(asn1: Asn1, text: string): Option<Revocation> {
    var (time, reason, extra) := Pieces(text);
    Interpret(asn1, time, reason, extra)
  }

  /** The C string that starts at `from` in a buffer. */
  function CString(buffer: seq<char>, from: nat): string
    requires from <= |buffer|
  {
    buffer[from..][..IndexOf(buffer[from..], '\0')]
  }

  /** First `c` at or after `from` in a terminated buffer, or -1 when the terminator comes first. */
  method Strchr(buffer: seq<char>, from: nat, c: char) returns (p: int)
    requires from < |buffer| && buffer[|buffer| - 1] == '\0'
    ensures -1 <= p < |buffer|
    ensures p >= 0 ==> from <= p && buffer[p] == c
    ensures forall k :: from <= k < p ==> buffer[k] != c && buffer[k] != '\0'
    ensures p < 0 ==> c !in CString(buffer, from)
  {
    p := from;
    while buffer[p] != '\0' && buffer[p] != c
      invariant from <= p < |buffer|
      invariant forall k :: from <= k < p ==> buffer[k] != c && buffer[k] != '\0'
      decreases |buffer| - p
    {
      p := p + 1;
    }
    if buffer[p] != c {
      IndexOfIs(buffer[from..], '\0', p - from);
      p := -1;
    }
  }

  /** Cuts the string at `from` at its first comma; `next` is where the rest starts, or -1. */
  method CutAtComma(buffer: seq<char>, from: nat, ghost s: string) returns (cut: seq<char>, next: int)
    requires Holds(buffer, from, s)
    ensures |cut| == |buffer| && forall k :: 0 <= k < from ==> cut[k] == buffer[k]
    ensures var i := IndexOf(s, ',');
            && Holds(cut, from, s[..i])
            && (if i == |s| then next == -1 else next == from + i + 1 && Holds(cut, next, s[i + 1..]))
  {
    CStringIs(buffer, from, s);
    next := -1;
    var p := Strchr(buffer, from, ',');
    if p < 0 {
      IndexOfIs(s, ',', |s|);
      assert s[..|s|] == s;
      return buffer, -1;
    }
    IndexOfIs(s, ',', p - from);
    cut, next := buffer[p := '\0'], p + 1;
  }

  /** Copies the text and overwrites its first two commas with terminators; -1 for a missing piece. */
  method CutAtCommas(text: string) returns (tmp: seq<char>, reasonAt: int, extraAt: int)
    requires '\0' !in text
    ensures 0 < |tmp| && -1 <= reasonAt < |tmp| && -1 <= extraAt < |tmp|
    ensures Pieces(text) == (CString(tmp, 0),
                             if reasonAt < 0 then None else Some(CString(tmp, reasonAt)),
                             if extraAt < 0 then None else Some(CString(tmp, extraAt)))
  {
    var one, two;
    one, reasonAt := CutAtComma(text + "\0", 0, text);
    ghost var i := IndexOf(text, ',');
    if reasonAt < 0 {
      tmp, extraAt := one, -1;
      CStringIs(tmp, 0, text[..i]);
      return;
    }
    ghost var rest := text[i + 1..];
    two, extraAt := CutAtComma(one, reasonAt, rest);
    tmp := two;
    ghost var j := IndexOf(rest, ',');
    HoldsFrame(one, two, 0, text[..i]);
    CStringIs(two, 0, text[..i]);
    CStringIs(two, reasonAt, rest[..j]);
    if extraAt >= 0 {
      CStringIs(two, extraAt, rest[j + 1..]);
    }
  }

  /** The parser, on a private copy that it cuts with terminators. */
  method UnpackRevinfo(asn1: Asn1, text: string) returns (r: Option<Revocation>)
    requires '\0' !in text
    ensures r == ParseRevocation(asn1, text)
  {
    var tmp, reasonAt, extraAt := CutAtCommas(text);
    var time := CString(tmp, 0);
    if !asn1.isUtc(time) {
      return None;
    }
    var code := NOSTATUS;
    var hold: Option<Oid>, compromise: Option<string> := None, None;
    if reasonAt >= 0 {
      code := FindReason(CString(tmp, reasonAt), |CRL_REASONS|);
      if code == NOSTATUS {
        return None;
      }
      if code == 7 {
        code := REMOVEFROMCRL;
      } else if code == 8 {
        if extraAt < 0 {
          return None;
        }
        code := CERTIFICATEHOLD;
        hold := asn1.oid(CString(tmp, extraAt));
        if hold.None? {
          return None;
        }
      } else if code == 9 || code == 10 {
        if extraAt < 0 {
          return None;
        }
        if !asn1.isGeneralized(CString(tmp, extraAt)) {
          return None;
        }
        compromise := Some(CString(tmp, extraAt));
        code := if code == 9 then KEYCOMPROMISE else CACOMPROMISE;
      }
    }
    r := Some(Revocation(time, code, hold, compromise));
  }

  /** `buffer` holds the terminated string `s` at `from`. */
  ghost predicate Holds(buffer: seq<char>, from: nat, s: string) {
    && from + |s| < |buffer| && buffer[from + |s|] == '\0' && buffer[|buffer| - 1] == '\0'
    && forall k :: 0 <= k < |s| ==> buffer[from + k] == s[k] != '\0'
  }

  lemma CStringIs(buffer: seq<char>, from: nat, s: string)
    requires Holds(buffer, from, s)
    ensures CString(buffer, from) == s
  {
    var tail := buffer[from..];
    forall k | 0 <= k < |s|
      ensures tail[k] == s[k] != '\0'
    {
      assert buffer[from + k] == s[k];
    }
    IndexOfIs(tail, '\0', |s|);
  }

  lemma HoldsFrame(buffer: seq<char>, cut: seq<char>, from: nat, s: string)
    requires Holds(buffer, from, s)
    requires |cut| == |buffer| && cut[|cut| - 1] == '\0'
    requires forall k :: 0 <= k <= from + |s| ==> cut[k] == buffer[k]
    ensures Holds(cut, from, s)
  {
  }

  // ---------------------------------------------------------------- round trip

  /** The reason codes of section 5.3.1 of RFC 5280, by the name or the option given; -1 for none. */
  ghost function RfcReason(kind: RevocationType, arg: string): int {
    match kind
    case StatusValid => -1
    case NoReason => -1
    case HoldInstruction => 6
    case KeyCompromise => 1
    case CaCompromise => 2
    case CrlReason =>
      if SameIgnoringCase(arg, "unspecified") then 0
      else if SameIgnoringCase(arg, "keyCompromise") then 1
      else if SameIgnoringCase(arg, "CACompromise") then 2
      else if SameIgnoringCase(arg, "affiliationChanged") then 3
      else if SameIgnoringCase(arg, "superseded") then 4
      else if SameIgnoringCase(arg, "cessationOfOperation") then 5
      else if SameIgnoringCase(arg, "certificateHold") then 6
      else 8
  }

  lemma ReasonsDistinct(i: nat, j: nat)
    requires i < |CRL_REASONS| && j < |CRL_REASONS|
    requires SameIgnoringCase(CRL_REASONS[i], CRL_REASONS[j])
    ensures i == j
  {
    var (a, b) := (CRL_REASONS[i], CRL_REASONS[j]);
    assert |a| == |b| && LowerChar(a[0]) == LowerChar(b[0]);
  }

  lemma ReasonFound(i: nat)
    requires i < |CRL_REASONS|
    ensures ReasonIndex(CRL_REASONS[i], |CRL_REASONS|) == i
  {
    var r := ReasonIndex(CRL_REASONS[i], |CRL_REASONS|);
    assert SameIgnoringCase(CRL_REASONS[i], CRL_REASONS[i]);
    ReasonsDistinct(i, r);
  }

  lemma OnePiece(time: string)
    requires ',' !in time
    ensures Pieces(time) == (time, None, None)
  {
    IndexOfIs(time, ',', |time|);
    assert time[..|time|] == time;
  }

  lemma TwoPieces(time: string, reason: string)
    requires ',' !in time && ',' !in reason
    ensures Pieces(time + "," + reason) == (time, Some(reason), None)
  {
    var text := time + "," + reason;
    assert text[..|time|] == time && text[|time| + 1..] == reason;
    IndexOfIs(text, ',', |time|);
    IndexOfIs(reason, ',', |reason|);
    assert reason[..|reason|] == reason;
  }

  /** The extra piece may itself contain commas. */
  lemma ThreePieces(time: string, reason: string, extra: string)
    requires ',' !in time && ',' !in reason
    ensures Pieces(time + "," + reason + "," + extra) == (time, Some(reason), Some(extra))
  {
    var text := time + "," + reason + "," + extra;
    var rest := reason + "," + extra;
    assert text == time + "," + rest;
    assert text[..|time|] == time && text[|time| + 1..] == rest;
    IndexOfIs(text, ',', |time|);
    assert rest[..|reason|] == reason && rest[|reason| + 1..] == extra;
    IndexOfIs(rest, ',', |reason|);
  }

  lemma ReasonsCommaFree(i: nat)
    requires i < |CRL_REASONS|
    ensures ',' !in CRL_REASONS[i]
  {
  }

  /**
    Parsing what was printed gives back the time, the reason code and the hold
    object or compromise time, for every accepted type and argument, exactly
    when the time printed is a UTCTime; otherwise the parser rejects the field.
   */
  lemma RoundTrip(asn1: Asn1, kind: RevocationType, arg: string, now: string)
    requires PrintRevocation(asn1, kind, arg, now).Some?
    requires ',' !in now
    ensures var back := ParseRevocation(asn1, PrintRevocation(asn1, kind, arg, now).value);
            if asn1.isUtc(now) then
              back == Some(Revocation(now, RfcReason(kind, arg),
                                      if kind.HoldInstruction? then asn1.oid(arg) else None,
                                      if kind.KeyCompromise? || kind.CaCompromise? then Some(arg) else None))
            else back == None
  {
    OnePiece(now);
    match kind
    case StatusValid =>
    case NoReason =>
    case CrlReason =>
      MatchedReason(arg);
      ParsePrinted(asn1, now, ReasonIndex(arg, 8), arg);
    case HoldInstruction => ParsePrinted(asn1, now, 8, arg);
    case KeyCompromise => ParsePrinted(asn1, now, 9, arg);
    case CaCompromise => ParsePrinted(asn1, now, 10, arg);
  }

  /** Accepted are the eight reasons by name, in any case, known hold objects, and times of compromise. */
  lemma AcceptedIff(asn1: Asn1, kind: RevocationType, arg: string, now: string)
    ensures PrintRevocation(asn1, kind, arg, now).Some? <==>
            match kind
            case StatusValid => true
            case NoReason => true
            case CrlReason => exists k :: 0 <= k < 8 && SameIgnoringCase(arg, CRL_REASONS[k])
            case HoldInstruction => asn1.oid(arg).Some?
            case KeyCompromise => asn1.isGeneralized(arg)
            case CaCompromise => asn1.isGeneralized(arg)
  {
    assert kind.CrlReason? && ReasonIndex(arg, 8) >= 0 ==> SameIgnoringCase(arg, CRL_REASONS[ReasonIndex(arg, 8)]);
  }

  /** The reason code of section 5.3.1 of RFC 5280 that a field names, in any case; -1 if it names none. */
  ghost function FieldReason(name: string): int {
    if SameIgnoringCase(name, "holdInstruction") then 6
    else if SameIgnoringCase(name, "keyTime") then 1
    else if SameIgnoringCase(name, "CAkeyTime") then 2
    else if SameIgnoringCase(name, "unspecified") then 0
    else if SameIgnoringCase(name, "keyCompromise") then 1
    else if SameIgnoringCase(name, "CACompromise") then 2
    else if SameIgnoringCase(name, "affiliationChanged") then 3
    else if SameIgnoringCase(name, "superseded") then 4
    else if SameIgnoringCase(name, "cessationOfOperation") then 5
    else if SameIgnoringCase(name, "certificateHold") then 6
    else if SameIgnoringCase(name, "removeFromCRL") then 8
    else -1
  }

  lemma FieldReasonIs(name: string)
    ensures var i := ReasonIndex(name, |CRL_REASONS|);
            FieldReason(name) == if i == 7 then 8 else if i == 8 then 6 else if i == 9 then 1 else if i == 10 then 2 else i
    ensures ReasonIndex(name, |CRL_REASONS|) == 8 <==> SameIgnoringCase(name, "holdInstruction")
    ensures ReasonIndex(name, |CRL_REASONS|) in {9, 10} <==> SameIgnoringCase(name, "keyTime") || SameIgnoringCase(name, "CAkeyTime")
  {
    ReasonAt(name, "unspecified", 0);
    ReasonAt(name, "keyCompromise", 1);
    ReasonAt(name, "CACompromise", 2);
    ReasonAt(name, "affiliationChanged", 3);
    ReasonAt(name, "superseded", 4);
    ReasonAt(name, "cessationOfOperation", 5);
    ReasonAt(name, "certificateHold", 6);
    ReasonAt(name, "removeFromCRL", 7);
    ReasonAt(name, "holdInstruction", 8);
    ReasonAt(name, "keyTime", 9);
    ReasonAt(name, "CAkeyTime", 10);
  }

  /** A text matches a reason string exactly when the search ends there. */
  lemma ReasonAt(name: string, reason: string, k: nat)
    requires k < |CRL_REASONS| && CRL_REASONS[k] == reason
    ensures SameIgnoringCase(name, reason) <==> ReasonIndex(name, |CRL_REASONS|) == k
  {
    var i := ReasonIndex(name, |CRL_REASONS|);
    if SameIgnoringCase(name, reason) {
      assert i >= 0 && SameIgnoringCase(CRL_REASONS[i], CRL_REASONS[k]);
      ReasonsDistinct(i, k);
    }
  }

  /**
    What the parser accepts and gives, for any pieces: a UTCTime, alone or with a
    reason that has a name, and behind a hold or a time of compromise a known
    object or a GeneralizedTime.
   */
  lemma InterpretMeans(asn1: Asn1, time: string, reason: Option<string>, extra: Option<string>)
    ensures var r := Interpret(asn1, time, reason, extra);
            var hold := reason.Some? && SameIgnoringCase(reason.value, "holdInstruction");
            var compromise := reason.Some? && (SameIgnoringCase(reason.value, "keyTime") || SameIgnoringCase(reason.value, "CAkeyTime"));
            && (r.Some? <==>
                  && asn1.isUtc(time) && (reason.Some? ==> FieldReason(reason.value) >= 0)
                  && (hold ==> extra.Some? && asn1.oid(extra.value).Some?)
                  && (compromise ==> extra.Some? && asn1.isGeneralized(extra.value)))
            && (r.Some? ==> r.value == Revocation(time, if reason.None? then -1 else FieldReason(reason.value),
                                                  if hold then asn1.oid(extra.value) else None, if compromise then extra else None))
  {
    if reason.Some? {
      FieldReasonIs(reason.value);
    }
  }

  lemma ParsePrinted(asn1: Asn1, now: string, i: nat, extra: string)
    requires ',' !in now && i < |CRL_REASONS|
    ensures ReasonIndex(CRL_REASONS[i], |CRL_REASONS|) == i
    ensures ParseRevocation(asn1, now + "," + CRL_REASONS[i]) == Interpret(asn1, now, Some(CRL_REASONS[i]), None)
    ensures ParseRevocation(asn1, now + "," + CRL_REASONS[i] + "," + extra)
         == Interpret(asn1, now, Some(CRL_REASONS[i]), Some(extra))
  {
    ReasonFound(i);
    ReasonsCommaFree(i);
    TwoPieces(now, CRL_REASONS[i]);
    ThreePieces(now, CRL_REASONS[i], extra);
  }

  lemma MatchedReason(arg: string)
    requires ReasonIndex(arg, 8) >= 0
    ensures var i := ReasonIndex(arg, 8);
            RfcReason(CrlReason, arg) == if i == 7 then 8 else i
  {
    assert forall k :: 0 <= k < 8 ==> CRL_REASONS[k] == ["unspecified", "keyCompromise", "CACompromise", "affiliationChanged", "superseded", "cessationOfOperation", "certificateHold", "removeFromCRL"][k];
  }
}
