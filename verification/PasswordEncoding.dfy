/**
  The printed form of crypt-style password hashes: the digest's bytes in a
  fixed order, three at a time, as base-64 digits with the lowest first; and the
  byte strings stretched from a digest. Shifts and masks of the unsigned values
  are written as division and remainder.
 */
module PasswordEncoding {

  type Byte = b: int | 0 <= b < 256

  /** The 64 digits are three runs of codes: from '.' to '9', the capital letters and the small letters. */
  function DigitChar(d: int): char
    requires 0 <= d < 64
  {
    if d < 12 then (0x2E + d) as char else if d < 38 then (0x41 + d - 12) as char else (0x61 + d - 38) as char
  }

  /** The digit a character stands for. */
  function CharDigit(c: char): int {
    if '.' <= c <= '9' then c as int - '.' as int
    else if 'A' <= c <= 'Z' then c as int - 'A' as int + 12
    else if 'a' <= c <= 'z' then c as int - 'a' as int + 38
    else -1
  }

  // ---------------------------------------------------------------- numbers as digits

  function Power64(n: nat): nat {
    if n == 0 then 1 else 64 * Power64(n - 1)
  }

  /** The lowest `n` digits of a number, lowest first. */
  function Digits(w: nat, n: nat): (r: string)
    ensures |r| == n
  {
    if n == 0 then [] else [DigitChar(w % 64)] + Digits(w / 64, n - 1)
  }

  function Number(text: string): int {
    if text == [] then 0 else CharDigit(text[0]) + 64 * Number(text[1..])
  }

  lemma {:induction false} NumberOfDigits(w: nat, n: nat)
    requires w < Power64(n)
    ensures Number(Digits(w, n)) == w
  {
    if n > 0 {
      NumberOfDigits(w / 64, n - 1);
      assert CharDigit(DigitChar(w % 64)) == w % 64;
      assert Digits(w, n)[1..] == Digits(w / 64, n - 1);
    }
  }

  // ---------------------------------------------------------------- tables

  /** Where the three bytes of a group come from, highest first, and the digits it is printed with; -1 stands for a zero. */
  datatype Group = Group(b2: int, b1: int, b0: int, n: nat)

  type Table = seq<Group>

  function Md5Groups(): (t: Table)
    ensures TableOk(t, 16)
  {
    [Group(0, 6, 12, 4), Group(1, 7, 13, 4), Group(2, 8, 14, 4), Group(3, 9, 15, 4), Group(4, 10, 5, 4), Group(-1, -1, 11, 2)]
  }

  function Sha256Groups(): (t: Table)
    ensures TableOk(t, 32)
  {
    [Group(0, 10, 20, 4), Group(21, 1, 11, 4), Group(12, 22, 2, 4), Group(3, 13, 23, 4), Group(24, 4, 14, 4), Group(15, 25, 5, 4),
     Group(6, 16, 26, 4), Group(27, 7, 17, 4), Group(18, 28, 8, 4), Group(9, 19, 29, 4), Group(-1, 31, 30, 3)]
  }

  function Sha512Groups(): (t: Table)
    ensures TableOk(t, 64)
  {
    [Group(0, 21, 42, 4), Group(22, 43, 1, 4), Group(44, 2, 23, 4), Group(3, 24, 45, 4), Group(25, 46, 4, 4), Group(47, 5, 26, 4),
     Group(6, 27, 48, 4), Group(28, 49, 7, 4), Group(50, 8, 29, 4), Group(9, 30, 51, 4), Group(31, 52, 10, 4), Group(53, 11, 32, 4),
     Group(12, 33, 54, 4), Group(34, 55, 13, 4), Group(56, 14, 35, 4), Group(15, 36, 57, 4), Group(37, 58, 16, 4), Group(59, 17, 38, 4),
     Group(18, 39, 60, 4), Group(40, 61, 19, 4), Group(62, 20, 41, 4), Group(-1, -1, 63, 2)]
  }

  /** Bytes in range, and enough digits for those that are not fixed at zero. */
  predicate GroupOk(g: Group, size: nat) {
    && -1 <= g.b2 < size && -1 <= g.b1 < size && 0 <= g.b0 < size
    && (g.n == 4 || (g.n == 3 && g.b2 == -1) || (g.n == 2 && g.b2 == -1 && g.b1 == -1))
  }

  predicate TableOk(t: Table, size: nat) {
    forall r :: 0 <= r < |t| ==> GroupOk(t[r], size)
  }

  /** The row of a table that prints a byte. */
  predicate Prints(t: Table, r: int, i: int) {
    0 <= r < |t| && (t[r].b2 == i || t[r].b1 == i || t[r].b0 == i)
  }

  const ALPHABET := "./0123456789" + "ABCDEFGHIJKLMNOPQRSTUVWXYZ" + "abcdefghijklmnopqrstuvwxyz"

  /** The digits are the characters of the alphabet, in order. */
  lemma DigitsOfAlphabet(d: int)
    requires 0 <= d < 64
    ensures DigitChar(d) == ALPHABET[d]
  {
    if d < 12 {
      assert DigitChar(d) == "./0123456789"[d];
    } else if d < 38 {
      assert DigitChar(d) == "ABCDEFGHIJKLMNOPQRSTUVWXYZ"[d - 12];
    } else {
      assert DigitChar(d) == "abcdefghijklmnopqrstuvwxyz"[d - 38];
    }
  }

  /** In each full row stand bytes six apart, but for the last of them; byte 11 is alone. */
  lemma Md5RowsAre(r: nat)
    requires r < 5
    ensures |Md5Groups()| == 6 && Md5Groups()[5] == Group(-1, -1, 11, 2)
    ensures Md5Groups()[r] == Group(r, r + 6, if r < 4 then r + 12 else 5, 4)
  {
  }

  /** In each full row stand bytes a third of the digest apart, and from row to row the three change places in turn; the last row prints what is left. */
  lemma Sha256RowsAre(r: nat)
    requires r < 10
    ensures |Sha256Groups()| == 11 && Sha256Groups()[10] == Group(-1, 31, 30, 3)
    ensures Sha256Groups()[r] == Group(r + 10 * (2 * r % 3), r + 10 * ((2 * r + 1) % 3), r + 10 * ((2 * r + 2) % 3), 4)
  {
  }

  lemma Sha512RowsAre(r: nat)
    requires r < 21
    ensures |Sha512Groups()| == 22 && Sha512Groups()[21] == Group(-1, -1, 63, 2)
    ensures Sha512Groups()[r] == Group(r + 21 * (r % 3), r + 21 * ((r + 1) % 3), r + 21 * ((r + 2) % 3), 4)
  {
  }

  // ---------------------------------------------------------------- digests as text

  function ByteAt(digest: seq<Byte>, i: int): Byte
    requires -1 <= i < |digest|
  {
    if i == -1 then 0 else digest[i]
  }

  function WordOf(b2: int, b1: int, b0: int): int {
    b2 * 65536 + b1 * 256 + b0
  }

  function Word(digest: seq<Byte>, g: Group): (w: nat)
    requires GroupOk(g, |digest|)
    ensures w < Power64(g.n)
  {
    assert Power64(2) == 4096 && Power64(3) == 262144 && Power64(4) == 16777216;
    WordOf(ByteAt(digest, g.b2), ByteAt(digest, g.b1), ByteAt(digest, g.b0))
  }

  /** The text of the first groups of a table. */
  function TextTo(digest: seq<Byte>, t: Table, r: nat): (s: string)
    requires r <= |t| && TableOk(t, |digest|)
    ensures |s| == Offset(t, r)
  {
    if r == 0 then [] else TextTo(digest, t, r - 1) + Digits(Word(digest, t[r - 1]), t[r - 1].n)
  }

  /** Where the text of a group starts. */
  function Offset(t: Table, r: nat): nat
    requires r <= |t|
  {
    if r == 0 then 0 else Offset(t, r - 1) + t[r - 1].n
  }

  function Text(digest: seq<Byte>, t: Table): string
    requires TableOk(t, |digest|)
  {
    TextTo(digest, t, |t|)
  }

  /** Reads byte `i` out of a text, from the row that prints it. */
  function DecodeByte(text: string, t: Table, r: nat, i: nat): int
    requires Prints(t, r, i) && Offset(t, r) + t[r].n <= |text|
  {
    ByteOf(t[r], Number(text[Offset(t, r)..Offset(t, r) + t[r].n]), i)
  }

  function ByteOf(g: Group, w: int, i: nat): int {
    if g.b0 == i then w % 256 else if g.b1 == i then w / 256 % 256 else w / 65536
  }

  lemma {:induction false} TextOfGroup(digest: seq<Byte>, t: Table, r: nat, m: nat)
    requires r < m <= |t| && TableOk(t, |digest|)
    ensures Offset(t, r) + t[r].n <= Offset(t, m)
    ensures TextTo(digest, t, m)[Offset(t, r)..Offset(t, r) + t[r].n] == Digits(Word(digest, t[r]), t[r].n)
    decreases m
  {
    var (before, last) := (TextTo(digest, t, m - 1), Digits(Word(digest, t[m - 1]), t[m - 1].n));
    assert TextTo(digest, t, m) == before + last && Offset(t, m) == Offset(t, m - 1) + t[m - 1].n;
    if r < m - 1 {
      TextOfGroup(digest, t, r, m - 1);
      SlicePrefix(before, last, Offset(t, r), Offset(t, r) + t[r].n);
    } else {
      SliceSuffix(before, last);
    }
  }

  lemma SliceSuffix(a: string, b: string)
    ensures (a + b)[|a|..|a| + |b|] == b
  {
  }

  lemma SlicePrefix(a: string, b: string, i: nat, j: nat)
    requires i <= j <= |a|
    ensures (a + b)[i..j] == a[i..j]
  {
  }

  /** Every byte that a table prints can be read back from the text. */
  lemma DecodeText(digest: seq<Byte>, t: Table, r: nat, i: nat)
    requires TableOk(t, |digest|) && i < |digest| && Prints(t, r, i)
    ensures Offset(t, r) + t[r].n <= |Text(digest, t)|
    ensures DecodeByte(Text(digest, t), t, r, i) == digest[i]
  {
    NumberOfText(digest, t, r);
    ByteOfWord(digest, t[r], i);
  }

  lemma NumberOfText(digest: seq<Byte>, t: Table, r: nat)
    requires TableOk(t, |digest|) && r < |t|
    ensures Offset(t, r) + t[r].n <= |Text(digest, t)|
    ensures Number(Text(digest, t)[Offset(t, r)..Offset(t, r) + t[r].n]) == Word(digest, t[r])
  {
    TextOfGroup(digest, t, r, |t|);
    NumberOfDigits(Word(digest, t[r]), t[r].n);
  }

  lemma ByteOfWord(digest: seq<Byte>, g: Group, i: nat)
    requires GroupOk(g, |digest|) && i < |digest| && (g.b2 == i || g.b1 == i || g.b0 == i)
    ensures ByteOf(g, Word(digest, g), i) == digest[i]
  {
    SplitWord(ByteAt(digest, g.b2), ByteAt(digest, g.b1), ByteAt(digest, g.b0));
  }

  lemma SplitWord(b2: Byte, b1: Byte, b0: Byte)
    ensures var w := WordOf(b2, b1, b0);
            w % 256 == b0 && w / 256 % 256 == b1 && w / 65536 == b2
  {
    var w := WordOf(b2, b1, b0);
    assert w / 256 == b2 * 256 + b1;
  }

  // ---------------------------------------------------------------- each byte is printed

  /** The row in which byte `i` of a digest is printed. */
  function Md5Row(i: nat): nat {
    if i == 11 then 5 else if i == 5 then 4 else if i < 6 then i else if i < 11 then i - 6 else i - 12
  }

  function Sha256Row(i: nat): nat {
    if i < 30 then i % 10 else 10
  }

  function Sha512Row(i: nat): nat {
    if i < 63 then i % 21 else 21
  }

  /** Rows of four digits, and the last one. */
  lemma {:induction false} OffsetOfRows(t: Table, r: nat)
    requires r <= |t| && forall k :: 0 <= k < r ==> t[k].n == 4
    ensures Offset(t, r) == 4 * r
  {
    if r > 0 {
      OffsetOfRows(t, r - 1);
    }
  }

  lemma Md5Prints(i: nat)
    requires i < 16
    ensures Prints(Md5Groups(), Md5Row(i), i)
  {
  }

  lemma Sha256Prints(i: nat)
    requires i < 32
    ensures Prints(Sha256Groups(), Sha256Row(i), i)
  {
  }

  lemma Sha512Prints(i: nat)
    requires i < 64
    ensures Prints(Sha512Groups(), Sha512Row(i), i)
  {
  }

  /** 22, 43 and 86 characters. */
  lemma TextLengths()
    ensures Offset(Md5Groups(), 6) == 22 && Offset(Sha256Groups(), 11) == 43 && Offset(Sha512Groups(), 22) == 86
  {
    OffsetOfRows(Md5Groups(), 5);
    OffsetOfRows(Sha256Groups(), 10);
    OffsetOfRows(Sha512Groups(), 21);
  }

  /** Each byte has its row, and the text is long enough for it. */
  ghost predicate Readable(t: Table, size: nat, row: nat -> nat, length: nat) {
    forall i: nat :: i < size ==> Prints(t, row(i), i) && Offset(t, row(i)) + t[row(i)].n <= length
  }

  /** Reads a whole digest back; `row` says where each byte is printed. */
  ghost function Decode(text: string, t: Table, size: nat, row: nat -> nat): seq<int>
    requires Readable(t, size, row, |text|)
  {
    seq(size, i requires 0 <= i < size => DecodeByte(text, t, row(i), i))
  }

  lemma DecodeInverts(digest: seq<Byte>, t: Table, row: nat -> nat)
    requires TableOk(t, |digest|) && forall i: nat :: i < |digest| ==> Prints(t, row(i), i)
    ensures Readable(t, |digest|, row, |Text(digest, t)|)
    ensures Decode(Text(digest, t), t, |digest|, row) == digest
  {
    forall i: nat | i < |digest|
      ensures Offset(t, row(i)) + t[row(i)].n <= |Text(digest, t)|
      ensures DecodeByte(Text(digest, t), t, row(i), i) == digest[i]
    {
      DecodeText(digest, t, row(i), i);
    }
  }

  // ---------------------------------------------------------------- printing

  /** Writes the digits of a word, lowest first, at a moving position. */
  method B64From24Bit(out: array<char>, at: nat, b2: Byte, b1: Byte, b0: Byte, n: nat) returns (cp: nat)
    requires at + n <= out.Length
    modifies out
    ensures cp == at + n && out[at..cp] == Digits(WordOf(b2, b1, b0), n)
    ensures forall k :: 0 <= k < out.Length && !(at <= k < cp) ==> out[k] == old(out[k])
  {
    var w, i := WordOf(b2, b1, b0), n;
    cp := at;
    ghost var all := Digits(w, n);
    while i > 0
      invariant 0 <= i <= n && cp == at + n - i && w >= 0
      invariant Digits(w, i) == all[n - i..]
      invariant forall k :: 0 <= k < n - i ==> out[at + k] == all[k]
      invariant forall k :: 0 <= k < out.Length && !(at <= k < cp) ==> out[k] == old(out[k])
    {
      ghost var rest := Digits(w, i);
      assert rest[0] == all[n - i] && rest[1..] == all[n - i + 1..];
      i := i - 1;
      out[cp] := DigitChar(w % 64);
      cp := cp + 1;
      w := w / 64;
    }
  }

  /** Prints a digest row by row of its table. */
  method PrintRows(out: array<char>, start: nat, digest: seq<Byte>, t: Table) returns (cp: nat)
    requires TableOk(t, |digest|) && start + Offset(t, |t|) <= out.Length
    modifies out
    ensures cp == start + Offset(t, |t|) && out[start..cp] == Text(digest, t)
    ensures forall k :: 0 <= k < out.Length && !(start <= k < cp) ==> out[k] == old(out[k])
  {
    cp := start;
    for r := 0 to |t|
      invariant cp == start + Offset(t, r) <= out.Length && out[start..cp] == TextTo(digest, t, r)
      invariant forall k :: 0 <= k < out.Length && !(start <= k < cp) ==> out[k] == old(out[k])
    {
      OffsetGrows(t, r + 1);
      assert Offset(t, r + 1) == Offset(t, r) + t[r].n;
      cp := PrintRow(out, start, cp, digest, t[r]);
    }
  }

  /** Prints one row behind what is there. */
  method PrintRow(out: array<char>, start: nat, at: nat, digest: seq<Byte>, g: Group) returns (cp: nat)
    requires GroupOk(g, |digest|) && start <= at && at + g.n <= out.Length
    modifies out
    ensures cp == at + g.n && out[start..cp] == old(out[start..at]) + Digits(Word(digest, g), g.n)
    ensures forall k :: 0 <= k < out.Length && !(at <= k < cp) ==> out[k] == old(out[k])
  {
    cp := B64From24Bit(out, at, ByteAt(digest, g.b2), ByteAt(digest, g.b1), ByteAt(digest, g.b0), g.n);
    assert out[start..at] == old(out[start..at]) && out[start..cp] == out[start..at] + out[at..cp];
  }

  lemma {:induction false} OffsetGrows(t: Table, r: nat)
    requires r <= |t|
    ensures Offset(t, r) <= Offset(t, |t|)
    decreases |t| - r
  {
    if r < |t| {
      OffsetGrows(t, r + 1);
    }
  }

  /** The table of a hash by its mark, '5' or '6'. */
  function ShaGroups(magic: char): Table {
    if magic == '5' then Sha256Groups() else Sha512Groups()
  }

  /** Prints a SHA digest by the mark of the hash; other marks are refused. */
  method PrintSha(out: array<char>, start: nat, magic: char, digest: seq<Byte>) returns (ok: bool, cp: nat)
    requires |digest| == (if magic == '5' then 32 else 64) && start + 86 <= out.Length
    modifies out
    ensures ok <==> magic == '5' || magic == '6'
    ensures TableOk(ShaGroups(magic), |digest|)
    ensures ok ==> cp == start + (if magic == '5' then 43 else 86) && out[start..cp] == Text(digest, ShaGroups(magic))
    ensures !ok ==> out[..] == old(out[..])
  {
    TextLengths();
    ok, cp := magic == '5' || magic == '6', start;
    if ok {
      cp := PrintRows(out, start, digest, if magic == '5' then Sha256Groups() else Sha512Groups());
    }
  }

  /** Where the byte printed at position `d` comes from: six places on each time, around a circle of 17. */
  function SourceOf(d: int): (source: int)
    requires 0 <= d < 14
    ensures 0 <= source < 16
  {
    6 * d % 17
  }

  lemma NextSource(d: int)
    requires 0 <= d < 14
    ensures d < 13 ==> (SourceOf(d) + 6) % 17 == SourceOf(d + 1)
  {
    Around(6 * d);
  }

  lemma Around(x: nat)
    ensures (x % 17 + 6) % 17 == (x + 6) % 17
  {
    var (q, r) := (x / 17, x % 17);
    assert x + 6 == 17 * q + (r + 6);
  }

  /** The order in which the bytes of an MD5 digest are printed. */
  method Permute(buf: seq<Byte>) returns (perm: array<Byte>)
    requires |buf| == 16
    ensures perm.Length == 16 && perm[14] == buf[5] && perm[15] == buf[11]
    ensures forall d :: 0 <= d < 14 ==> perm[d] == buf[SourceOf(d)]
  {
    perm := new Byte[16](_ => 0);
    var dest, source := 0, 0;
    while dest < 14
      invariant 0 <= dest <= 14 && (dest < 14 ==> source == SourceOf(dest))
      invariant forall d :: 0 <= d < dest ==> perm[d] == buf[SourceOf(d)]
    {
      perm[dest] := buf[source];
      NextSource(dest);
      dest, source := dest + 1, (source + 6) % 17;
    }
    perm[14] := buf[5];
    perm[15] := buf[11];
  }

  /** Four characters for three bytes, put together from parts of each. */
  method PutThree(out: array<char>, start: nat, at: nat, x: Byte, y: Byte, z: Byte)
    requires start <= at && at + 4 <= out.Length
    modifies out
    ensures out[start..at + 4] == old(out[start..at]) + Digits(WordOf(x, y, z), 4)
    ensures forall k :: 0 <= k < out.Length && !(at <= k < at + 4) ==> out[k] == old(out[k])
  {
    ThreeBytes(x, y, z);
    out[at] := DigitChar(z % 64);
    out[at + 1] := DigitChar(y % 16 * 4 + z / 64);
    out[at + 2] := DigitChar(x % 4 * 16 + y / 16);
    out[at + 3] := DigitChar(x / 4);
    assert out[start..at] == old(out[start..at]);
    assert out[start..at + 4] == out[start..at] + [out[at], out[at + 1], out[at + 2], out[at + 3]];
  }

  lemma ThreeBytes(x: Byte, y: Byte, z: Byte)
    ensures Digits(WordOf(x, y, z), 4) ==
            [DigitChar(z % 64), DigitChar(y % 16 * 4 + z / 64), DigitChar(x % 4 * 16 + y / 16), DigitChar(x / 4)]
  {
    var w0 := WordOf(x, y, z);
    var (w1, w2, w3) := (x * 1024 + y * 4 + z / 64, x * 16 + y / 16, x / 4);
    assert w0 % 64 == z % 64 && w0 / 64 == w1;
    assert w1 % 64 == y % 16 * 4 + z / 64 && w1 / 64 == w2;
    assert w2 % 64 == x % 4 * 16 + y / 16 && w2 / 64 == w3;
    assert Digits(w3, 1) == [DigitChar(w3)] + Digits(0, 0);
    assert Digits(w2, 2) == [DigitChar(w2 % 64)] + Digits(w3, 1);
    assert Digits(w1, 3) == [DigitChar(w1 % 64)] + Digits(w2, 2);
  }

  /** Prints an MD5 digest: the permuted bytes three at a time, and the last one. */
  method PrintMd5(out: array<char>, start: nat, buf: seq<Byte>)
    requires |buf| == 16 && start + 22 <= out.Length
    modifies out
    ensures out[start..start + 22] == Text(buf, Md5Groups())
    ensures forall k :: 0 <= k < out.Length && !(start <= k < start + 22) ==> out[k] == old(out[k])
  {
    var perm := Permute(buf);
    ghost var p := perm[..];
    ghost var all := Text(buf, Md5Groups());
    RowsText(buf, p);
    var i, cp := 0, start;
    ghost var r := 0;
    while i < 15
      invariant 0 <= r <= 5 && i == 3 * r && cp == start + 4 * r && perm[..] == p
      invariant out[start..cp] == all[..4 * r]
      invariant forall k :: 0 <= k < out.Length && !(start <= k < cp) ==> out[k] == old(out[k])
    {
      PutThree(out, start, cp, perm[i], perm[i + 1], perm[i + 2]);
      JoinText(all, 4 * r, 4 * r + 4);
      i, cp, r := i + 3, cp + 4, r + 1;
    }
    PutLast(out, start, cp, perm[i]);
    JoinText(all, 20, 22);
    assert all[..22] == all;
  }

  /** The last two characters. */
  method PutLast(out: array<char>, start: nat, cp: nat, b: Byte)
    requires start <= cp && cp + 2 <= out.Length
    modifies out
    ensures out[start..cp + 2] == old(out[start..cp]) + [DigitChar(b % 64), DigitChar(b / 64)]
    ensures forall k :: 0 <= k < out.Length && k != cp && k != cp + 1 ==> out[k] == old(out[k])
  {
    out[cp] := DigitChar(b % 64);
    out[cp + 1] := DigitChar(b / 64);
    assert out[start..cp] == old(out[start..cp]);
  }

  lemma JoinText(all: string, m: nat, n: nat)
    requires m <= n <= |all|
    ensures all[..n] == all[..m] + all[m..n]
  {
  }

  /** The permuted bytes are those of the rows, in order. */
  lemma PermutedRows(buf: seq<Byte>, p: seq<Byte>)
    requires |buf| == 16 && |p| == 16 && p[14] == buf[5] && p[15] == buf[11]
    requires forall d :: 0 <= d < 14 ==> p[d] == buf[SourceOf(d)]
    ensures forall r :: 0 <= r < 5 ==> Word(buf, Md5Groups()[r]) == WordOf(p[3 * r], p[3 * r + 1], p[3 * r + 2])
    ensures Word(buf, Md5Groups()[5]) == p[15]
  {
    assert p == [buf[0], buf[6], buf[12], buf[1], buf[7], buf[13], buf[2], buf[8], buf[14], buf[3], buf[9], buf[15], buf[4], buf[10], buf[5], buf[11]];
  }

  /** The text has the digits of three permuted bytes at a time, and of the last one. */
  ghost predicate TextRows(all: string, p: seq<Byte>)
    requires |p| == 16
  {
    && |all| == 22
    && (forall r :: 0 <= r < 5 ==> all[4 * r..4 * r + 4] == Digits(WordOf(p[3 * r], p[3 * r + 1], p[3 * r + 2]), 4))
    && all[20..22] == [DigitChar(p[15] % 64), DigitChar(p[15] / 64)]
  }

  lemma RowText(buf: seq<Byte>, r: nat)
    requires |buf| == 16 && r < 5
    ensures |Text(buf, Md5Groups())| == 22
    ensures Text(buf, Md5Groups())[4 * r..4 * r + 4] == Digits(Word(buf, Md5Groups()[r]), 4)
  {
    TextLengths();
    OffsetOfRows(Md5Groups(), r);
    TextOfGroup(buf, Md5Groups(), r, 6);
  }

  lemma LastText(buf: seq<Byte>)
    requires |buf| == 16
    ensures |Text(buf, Md5Groups())| == 22
    ensures Text(buf, Md5Groups())[20..22] == Digits(Word(buf, Md5Groups()[5]), 2)
  {
    TextLengths();
    OffsetOfRows(Md5Groups(), 5);
    TextOfGroup(buf, Md5Groups(), 5, 6);
  }

  lemma RowsText(buf: seq<Byte>, p: seq<Byte>)
    requires |buf| == 16 && |p| == 16 && p[14] == buf[5] && p[15] == buf[11]
    requires forall d :: 0 <= d < 14 ==> p[d] == buf[SourceOf(d)]
    ensures TextRows(Text(buf, Md5Groups()), p)
  {
    PermutedRows(buf, p);
    forall r | 0 <= r < 5
      ensures Text(buf, Md5Groups())[4 * r..4 * r + 4] == Digits(Word(buf, Md5Groups()[r]), 4)
    {
      RowText(buf, r);
    }
    LastText(buf);
    TwoDigits(p[15]);
  }

  lemma TwoDigits(b: Byte)
    ensures Digits(b, 2) == [DigitChar(b % 64), DigitChar(b / 64)]
  {
    assert b / 64 % 64 == b / 64 && b / 64 / 64 == 0;
    assert Digits(b / 64, 1) == [DigitChar(b / 64)] + Digits(0, 0);
  }

  // ---------------------------------------------------------------- stretched byte strings

  /** Fills a byte string by repeating a digest; an empty one cannot be allocated. */
  method Stretch(digest: array<Byte>, len: nat) returns (bytes: array?<Byte>)
    requires digest.Length == 32 || digest.Length == 64
    ensures bytes == null <==> len == 0
    ensures bytes != null ==> fresh(bytes) && bytes.Length == len && forall k :: 0 <= k < len ==> bytes[k] == digest[k % digest.Length]
  {
    if len == 0 {
      return null;
    }
    var size := digest.Length;
    bytes := new Byte[len](_ => 0);
    var cp, n := 0, len;
    ghost var rows := 0;
    while n > size
      invariant 0 < n && cp + n == len && cp == rows * size
      invariant Repeats(bytes[..cp], digest[..])
    {
      ghost var before := bytes[..cp];
      Copy(bytes, cp, digest, size);
      assert bytes[..cp] == before && bytes[..cp + size] == bytes[..cp] + digest[..size];
      RepeatsMore(bytes[..cp], digest[..], rows, size);
      n, cp := n - size, cp + size;
      rows := rows + 1;
    }
    ghost var before := bytes[..cp];
    Copy(bytes, cp, digest, n);
    assert bytes[..cp] == before && bytes[..] == bytes[..cp] + digest[..n];
    RepeatsMore(bytes[..cp], digest[..], rows, n);
    assert forall k :: 0 <= k < len ==> bytes[k] == bytes[..][k];
  }

  ghost predicate Repeats(s: seq<Byte>, digest: seq<Byte>)
    requires digest != []
  {
    forall k :: 0 <= k < |s| ==> s[k] == digest[k % |digest|]
  }

  lemma RepeatsMore(s: seq<Byte>, digest: seq<Byte>, rows: nat, n: nat)
    requires (|digest| == 32 || |digest| == 64) && |s| == rows * |digest| && Repeats(s, digest) && n <= |digest|
    ensures Repeats(s + digest[..n], digest)
  {
    var all := s + digest[..n];
    forall k | 0 <= k < |all|
      ensures all[k] == digest[k % |digest|]
    {
      if k >= |s| {
        InRow(k, rows, |digest|);
      }
    }
  }

  lemma InRow(k: nat, rows: nat, size: nat)
    requires (size == 32 || size == 64) && rows * size <= k < rows * size + size
    ensures k % size == k - rows * size
  {
    if size == 32 {
      InRow32(k, rows);
    } else {
      InRow64(k, rows);
    }
  }

  lemma InRow32(k: nat, rows: nat)
    requires rows * 32 <= k < rows * 32 + 32
    ensures k % 32 == k - rows * 32
  {
  }

  lemma InRow64(k: nat, rows: nat)
    requires rows * 64 <= k < rows * 64 + 64
    ensures k % 64 == k - rows * 64
  {
  }

  method Copy(bytes: array<Byte>, at: nat, digest: array<Byte>, n: nat)
    requires bytes != digest && n <= digest.Length && at + n <= bytes.Length
    modifies bytes
    ensures bytes[..at] == old(bytes[..at]) && bytes[at..at + n] == digest[..n]
  {
    for j := 0 to n
      invariant bytes[..at] == old(bytes[..at]) && bytes[at..at + j] == digest[..j]
    {
      bytes[at + j] := digest[j];
    }
  }

  // ---------------------------------------------------------------- the three hashes

  lemma Md5TextDecodes(digest: seq<Byte>)
    requires |digest| == 16
    ensures |Text(digest, Md5Groups())| == 22
    ensures Readable(Md5Groups(), 16, Md5Row, 22)
    ensures Decode(Text(digest, Md5Groups()), Md5Groups(), 16, Md5Row) == digest
  {
    forall i: nat | i < 16
      ensures Prints(Md5Groups(), Md5Row(i), i)
    {
      Md5Prints(i);
    }
    TextLengths();
    DecodeInverts(digest, Md5Groups(), Md5Row);
  }

  lemma Sha256TextDecodes(digest: seq<Byte>)
    requires |digest| == 32
    ensures |Text(digest, Sha256Groups())| == 43
    ensures Readable(Sha256Groups(), 32, Sha256Row, 43)
    ensures Decode(Text(digest, Sha256Groups()), Sha256Groups(), 32, Sha256Row) == digest
  {
    forall i: nat | i < 32
      ensures Prints(Sha256Groups(), Sha256Row(i), i)
    {
      Sha256Prints(i);
    }
    TextLengths();
    DecodeInverts(digest, Sha256Groups(), Sha256Row);
  }

  lemma Sha512TextDecodes(digest: seq<Byte>)
    requires |digest| == 64
    ensures |Text(digest, Sha512Groups())| == 86
    ensures Readable(Sha512Groups(), 64, Sha512Row, 86)
    ensures Decode(Text(digest, Sha512Groups()), Sha512Groups(), 64, Sha512Row) == digest
  {
    forall i: nat | i < 64
      ensures Prints(Sha512Groups(), Sha512Row(i), i)
    {
      Sha512Prints(i);
    }
    TextLengths();
    DecodeInverts(digest, Sha512Groups(), Sha512Row);
  }
}
