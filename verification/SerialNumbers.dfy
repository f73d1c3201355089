/**
  Certificate serial numbers as the CA database stores and compares them.

  A serial is kept as hexadecimal text.  The serial index skips leading '0'
  characters and then compares byte by byte; numbers are printed two digits to
  the byte in upper case; a status query is padded to even length and
  upper-cased before it is looked up.
 */
module SerialNumbers {

  predicate IsUpperHex(c: char) {
    '0' <= c <= '9' || 'A' <= c <= 'F'
  }

  predicate IsHex(c: char) {
    IsUpperHex(c) || 'a' <= c <= 'f'
  }

  predicate IsUpperHexText(s: string) {
    forall i :: 0 <= i < |s| ==> IsUpperHex(s[i])
  }

  predicate IsHexText(s: string) {
    forall i :: 0 <= i < |s| ==> IsHex(s[i])
  }

  function DigitValue(c: char): (v: nat)
    requires IsHex(c)
    ensures v < 16
  {
    if c <= '9' then c as int - '0' as int
    else if c <= 'F' then c as int - 'A' as int + 10
    else c as int - 'a' as int + 10
  }

  /** The number that hexadecimal text denotes. */
  ghost function HexValue(s: string): nat
    requires IsHexText(s)
  {
    if s == "" then 0
    else HexValue(s[..|s| - 1]) * 16 + DigitValue(s[|s| - 1])
  }

  predicate IsNegative(s: string) {
    s != "" && s[0] == '-'
  }

  /** The digits of a serial behind its sign. */
  function Magnitude(s: string): string {
    if IsNegative(s) then s[1..] else s
  }

  /** Serials as the load check accepts them, up to their length: hexadecimal in any case, perhaps with a sign. */
  predicate IsSerial(s: string) {
    IsHexText(Magnitude(s))
  }

  /** The number, of either sign, that a serial denotes. */
  ghost function SerialValue(s: string): int
    requires IsSerial(s)
  {
    var v: int := HexValue(Magnitude(s));
    if IsNegative(s) then -v else v
  }

  /** What is left of `s` after its leading '0' characters: the key of the serial index. */
  function StripZeros(s: string): string {
    if s != "" && s[0] == '0' then StripZeros(s[1..]) else s
  }

  function DigitChar(v: nat): (c: char)
    requires v < 16
    ensures IsUpperHex(c) && DigitValue(c) == v
  {
    "0123456789ABCDEF"[v]
  }

  /** Base-256 digits, two hexadecimal characters each, no leading zero byte. */
  function BytesToHex(n: nat): string
    decreases n
  {
    if n == 0 then "" else BytesToHex(n / 256) + [DigitChar(n % 256 / 16), DigitChar(n % 16)]
  }

  /** The text stored in a row for serial number `n`. */
  function SerialText(n: nat): string {
    if n == 0 then "00" else BytesToHex(n)
  }

  function UpperChar(c: char): char {
    if 'a' <= c <= 'z' then c - 'a' + 'A' else c
  }

  function Upper(s: string): (u: string)
    ensures |u| == |s|
    ensures forall i :: 0 <= i < |s| ==> u[i] == UpperChar(s[i])
  {
    seq(|s|, i requires 0 <= i < |s| => UpperChar(s[i]))
  }

  /** The key that a status query looks up for the text typed by the user. */
  function StatusKey(typed: string): string {
    Upper(if |typed| % 2 == 1 then "0" + typed else typed)
  }

  // ---------------------------------------------------------------- loops

  /** Scans both serials past their leading zeros and compares what is left. */
  method IndexSerialCompare(a: string, b: string) returns (equal: bool)
    ensures equal <==> StripZeros(a) == StripZeros(b)
  {
    var i, j := 0, 0;
    while i < |a| && a[i] == '0'
      invariant i <= |a| && StripZeros(a[i..]) == StripZeros(a)
    {
      assert a[i..][1..] == a[i + 1..];
      i := i + 1;
    }
    while j < |b| && b[j] == '0'
      invariant j <= |b| && StripZeros(b[j..]) == StripZeros(b)
    {
      assert b[j..][1..] == b[j + 1..];
      j := j + 1;
    }
    equal := a[i..] == b[j..];
  }

  /** Hashes what is left of a serial after its leading zeros. */
  method IndexSerialHash(strhash: string -> nat, a: string) returns (h: nat)
    ensures h == strhash(StripZeros(a))
  {
    var i := 0;
    while i < |a| && a[i] == '0'
      invariant i <= |a| && StripZeros(a[i..]) == StripZeros(a)
    {
      assert a[i..][1..] == a[i + 1..];
      i := i + 1;
    }
    h := strhash(a[i..]);
  }

  /** Copies the query with a '0' in front when its length is odd, then upper-cases in place. */
  method BuildStatusKey(typed: string) returns (key: string)
    ensures key == StatusKey(typed)
  {
    var pad := |typed| % 2;
    var row := new char[|typed| + pad];
    ghost var padded := if |typed| % 2 == 1 then "0" + typed else typed;
    if pad == 1 {
      row[0] := '0';
    }
    for k := 0 to |typed|
      invariant pad == 1 ==> row[0] == '0'
      invariant forall m :: 0 <= m < k ==> row[pad + m] == typed[m]
    {
      row[pad + k] := typed[k];
    }
    assert row[..] == padded;
    for k := 0 to row.Length
      invariant forall m :: 0 <= m < k ==> row[m] == UpperChar(padded[m])
      invariant forall m :: k <= m < row.Length ==> row[m] == padded[m]
    {
      row[k] := UpperChar(row[k]);
    }
    key := row[..];
    assert key == Upper(padded);
  }

  // ---------------------------------------------------------------- values

  lemma {:induction false} StripKeepsValue(s: string)
    requires IsHexText(s)
    ensures IsHexText(StripZeros(s)) && HexValue(StripZeros(s)) == HexValue(s)
    ensures IsUpperHexText(s) ==> IsUpperHexText(StripZeros(s))
    ensures StripZeros(s) == "" || StripZeros(s)[0] != '0'
  {
    if s != "" && s[0] == '0' {
      LeadingZero(s[1..]);
      assert s == "0" + s[1..];
      StripKeepsValue(s[1..]);
    }
  }

  lemma {:induction false} LeadingZero(s: string)
    requires IsHexText(s)
    ensures IsHexText("0" + s) && HexValue("0" + s) == HexValue(s)
  {
    var z := "0" + s;
    if s == "" {
      assert z[..|z| - 1] == "";
    } else {
      LeadingZero(s[..|s| - 1]);
      assert z[..|z| - 1] == "0" + s[..|s| - 1];
    }
  }

  lemma {:induction false} CanonicalPositive(s: string)
    requires IsHexText(s) && s != "" && s[0] != '0'
    ensures HexValue(s) > 0
  {
    if |s| > 1 {
      CanonicalPositive(s[..|s| - 1]);
    } else {
      assert s[..|s| - 1] == "";
    }
  }

  lemma {:induction false} CanonicalInjective(a: string, b: string)
    requires IsUpperHexText(a) && IsUpperHexText(b)
    requires a == "" || a[0] != '0'
    requires b == "" || b[0] != '0'
    requires HexValue(a) == HexValue(b)
    ensures a == b
  {
    if a == "" || b == "" {
      if a != "" { CanonicalPositive(a); }
      if b != "" { CanonicalPositive(b); }
    } else {
      var (a', b') := (a[..|a| - 1], b[..|b| - 1]);
      assert HexValue(a') == HexValue(b') && DigitValue(a[|a| - 1]) == DigitValue(b[|b| - 1]);
      CanonicalInjective(a', b');
      assert a == a' + [a[|a| - 1]] && b == b' + [b[|b| - 1]];
    }
  }

  /** On upper-case hexadecimal text the index comparison is equality of numbers. */
  lemma CompareIsNumeric(a: string, b: string)
    requires IsUpperHexText(a) && IsUpperHexText(b)
    ensures StripZeros(a) == StripZeros(b) <==> HexValue(a) == HexValue(b)
  {
    StripKeepsValue(a);
    StripKeepsValue(b);
    if HexValue(a) == HexValue(b) {
      CanonicalInjective(StripZeros(a), StripZeros(b));
    }
  }

  /** Serials that denote the same number have the same hash, whatever the hash function. */
  lemma EqualNumbersHashEqually(strhash: string -> nat, a: string, b: string)
    requires IsUpperHexText(a) && IsUpperHexText(b) && HexValue(a) == HexValue(b)
    ensures strhash(StripZeros(a)) == strhash(StripZeros(b))
  {
    CompareIsNumeric(a, b);
  }

  lemma {:induction false} UpperKeepsValue(s: string)
    requires IsHexText(s)
    ensures IsUpperHexText(Upper(s)) && HexValue(Upper(s)) == HexValue(s)
  {
    if s != "" {
      UpperKeepsValue(s[..|s| - 1]);
      assert Upper(s)[..|s| - 1] == Upper(s[..|s| - 1]);
    }
  }

  lemma {:induction false} UpperStrips(s: string)
    ensures StripZeros(Upper(s)) == Upper(StripZeros(s))
  {
    if s != "" && s[0] == '0' {
      UpperStrips(s[1..]);
      assert Upper(s)[1..] == Upper(s[1..]);
    }
  }

  /** Two texts of one length with letters of the same case at each place. */
  predicate SameCase(a: string, b: string) {
    |a| == |b| && forall i :: 0 <= i < |a| ==> (IsUpperHex(a[i]) <==> IsUpperHex(b[i]))
  }

  /**
    For hexadecimal text in any case, keys are equal if and only if the numbers
    are and the digits kept after stripping are spelled in the same case.
   */
  lemma CompareInAnyCase(a: string, b: string)
    requires IsHexText(a) && IsHexText(b)
    ensures StripZeros(a) == StripZeros(b) <==> HexValue(a) == HexValue(b) && SameCase(StripZeros(a), StripZeros(b))
    ensures HexValue(a) == HexValue(b) <==> StripZeros(Upper(a)) == StripZeros(Upper(b))
  {
    StripKeepsValue(a);
    StripKeepsValue(b);
    UpperDecides(a, b);
    UpperStrips(a);
    UpperStrips(b);
    if SameCase(StripZeros(a), StripZeros(b)) && StripZeros(Upper(a)) == StripZeros(Upper(b)) {
      CaseDecides(StripZeros(a), StripZeros(b));
    }
  }

  lemma UpperDecides(a: string, b: string)
    requires IsHexText(a) && IsHexText(b)
    ensures HexValue(a) == HexValue(b) <==> StripZeros(Upper(a)) == StripZeros(Upper(b))
  {
    UpperKeepsValue(a);
    UpperKeepsValue(b);
    CompareIsNumeric(Upper(a), Upper(b));
  }

  lemma CaseDecides(x: string, y: string)
    requires IsHexText(x) && IsHexText(y) && SameCase(x, y) && Upper(x) == Upper(y)
    ensures x == y
  {
    forall i | 0 <= i < |x|
      ensures x[i] == y[i]
    {
      assert Upper(x)[i] == Upper(y)[i];
    }
  }

  /**
    An upper-case key finds a serial, of any sign and case, if and only if it
    denotes the same number and is spelled in upper case behind its zeros.
   */
  lemma KeyMatches(serial: string, key: string)
    requires IsSerial(serial) && IsUpperHexText(key)
    ensures StripZeros(serial) == StripZeros(key) <==> SerialValue(serial) == HexValue(key) && IsUpperHexText(StripZeros(serial))
  {
    StripKeepsValue(key);
    if !IsNegative(serial) {
      StripKeepsValue(serial);
      if HexValue(serial) == HexValue(key) && IsUpperHexText(StripZeros(serial)) {
        CanonicalInjective(StripZeros(serial), StripZeros(key));
      }
    } else {
      assert StripZeros(serial)[0] == '-';
    }
  }

  /** Two spellings of ten that the index keeps apart. */
  lemma LowerCaseBreaksComparison()
    ensures IsHexText("0a") && IsHexText("0A")
    ensures HexValue("0a") == HexValue("0A")
    ensures StripZeros("0a") != StripZeros("0A")
  {
    assert "0a"[..1] == "0" == "0A"[..1];
    assert "0a"[1..] == "a" && "0A"[1..] == "A";
  }

  lemma HexByte(h: string, hi: char, lo: char)
    requires IsUpperHexText(h) && IsUpperHex(hi) && IsUpperHex(lo)
    ensures IsUpperHexText(h + [hi, lo]) && IsHexText(h) && IsHexText(h + [hi, lo])
    ensures HexValue(h + [hi, lo]) == HexValue(h) * 256 + DigitValue(hi) * 16 + DigitValue(lo)
  {
    var s := h + [hi, lo];
    assert s[..|s| - 1] == h + [hi];
    assert (h + [hi])[..|h|] == h;
  }

  lemma Byte(n: nat)
    ensures n == n / 256 * 256 + n % 256 / 16 * 16 + n % 16
  {
  }

  lemma {:induction false} BytesToHexValue(n: nat)
    ensures IsUpperHexText(BytesToHex(n)) && IsHexText(BytesToHex(n)) && HexValue(BytesToHex(n)) == n
    ensures |BytesToHex(n)| % 2 == 0
    ensures n > 0 ==> |BytesToHex(n)| >= 2
    decreases n
  {
    if n > 0 {
      BytesToHexValue(n / 256);
      OneMoreByte(BytesToHex(n / 256), n);
    }
  }

  lemma OneMoreByte(h: string, n: nat)
    requires IsUpperHexText(h) && IsHexText(h) && HexValue(h) == n / 256 && |h| % 2 == 0
    ensures var s := h + [DigitChar(n % 256 / 16), DigitChar(n % 16)];
            IsUpperHexText(s) && IsHexText(s) && HexValue(s) == n && |s| % 2 == 0 && |s| >= 2
  {
    HexByte(h, DigitChar(n % 256 / 16), DigitChar(n % 16));
    Byte(n);
  }

  /** A stored serial is upper-case hexadecimal of even, non-zero length and denotes its number. */
  lemma SerialTextDenotes(n: nat)
    ensures IsUpperHexText(SerialText(n)) && IsHexText(SerialText(n)) && HexValue(SerialText(n)) == n
    ensures |SerialText(n)| >= 2 && |SerialText(n)| % 2 == 0
  {
    BytesToHexValue(n);
    if n == 0 {
      assert "00"[..1] == "0" && "0"[..0] == "";
    }
  }

  /** Whatever the case and the leading zeros typed, the status key denotes the number typed. */
  lemma StatusKeyDenotes(typed: string)
    requires IsHexText(typed)
    ensures IsUpperHexText(StatusKey(typed)) && HexValue(StatusKey(typed)) == HexValue(typed)
  {
    LeadingZero(typed);
    UpperKeepsValue(if |typed| % 2 == 1 then "0" + typed else typed);
  }
}
