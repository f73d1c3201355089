/**
  The text form of the certificate database: one line per row, fields separated
  by tabs, a tab inside a field preceded by a backslash.
 */
module TextDatabase {

  import opened Options
  import opened Texts

  const FIELDS: nat := 6

  type Fields = seq<string>

  function Escape(f: string): string {
    if f == "" then ""
    else (if f[0] == '\t' then "\\\t" else [f[0]]) + Escape(f[1..])
  }

  /** The fields of one row, escaped and separated, without the line end. */
  function LineOf(row: Fields): string
    requires row != []
  {
    if |row| == 1 then Escape(row[0]) else Escape(row[0]) + "\t" + LineOf(row[1..])
  }

  function WriteRows(rows: seq<Fields>): string
    requires forall i :: 0 <= i < |rows| ==> |rows[i]| == FIELDS
  {
    if rows == [] then "" else LineOf(rows[0]) + "\n" + WriteRows(rows[1..])
  }

  /** Scans a line: `cur` is the field being filled, `esc` says that its last character was a backslash. */
  function Split(f: string, esc: bool, cur: string): (fields: Fields)
    requires esc ==> cur != ""
    ensures fields != []
  {
    if f == "" then [cur]
    else if f[0] == '\t' && !esc then [cur] + Split(f[1..], false, "")
    else if f[0] == '\t' then Split(f[1..], false, cur[..|cur| - 1] + "\t")
    else Split(f[1..], f[0] == '\\', cur + [f[0]])
  }

  /** A line must hold exactly the expected fields; one empty field too many is let through. */
  function ReadLine(line: string): Option<Fields> {
    var fields := Split(line, false, "");
    if |fields| == FIELDS then Some(fields)
    else if |fields| == FIELDS + 1 && fields[FIELDS] == "" then Some(fields[..FIELDS])
    else None
  }

  /** Reads line by line, skipping '#' lines and dropping an unfinished last line. */
  function ReadRows(text: string): Option<seq<Fields>>
    decreases |text|
  {
    var i := IndexOf(text, '\n');
    if i == |text| then Some([])
    else if text[0] == '#' then ReadRows(text[i + 1..])
    else
      var row := ReadLine(text[..i]);
      var rest := ReadRows(text[i + 1..]);
      if row.None? || rest.None? then None else Some([row.value] + rest.value)
  }

  // ---------------------------------------------------------------- round trip

  /** What the text form can carry. */
  predicate Storable(row: Fields) {
    && |row| == FIELDS
    && (forall k :: 0 <= k < FIELDS ==> OneLine(row[k]))
    && (row[0] == "" || row[0][0] != '#')
    && forall k :: 0 <= k < FIELDS - 1 ==> NoFinalBackslash(row[k])
  }

  predicate OneLine(f: string) {
    '\n' !in f
  }

  predicate NoFinalBackslash(f: string) {
    f == "" || f[|f| - 1] != '\\'
  }

  lemma {:induction false} SplitEscaped(f: string, rest: string, esc: bool, cur: string)
    requires esc ==> cur != ""
    ensures var e := if f == "" then esc else f[|f| - 1] == '\\';
            Split(Escape(f) + rest, esc, cur) == Split(rest, e, cur + f)
  {
    var text := Escape(f) + rest;
    if f == "" {
      assert text == rest && cur + f == cur;
    } else if f[0] == '\t' {
      assert text[0] == '\\' && text[1..][0] == '\t';
      assert text[1..][1..] == Escape(f[1..]) + rest;
      assert (cur + "\\")[..|cur|] == cur;
      SplitEscaped(f[1..], rest, false, cur + "\t");
      assert cur + "\t" + f[1..] == cur + f;
    } else {
      assert text[0] == f[0] && text[1..] == Escape(f[1..]) + rest;
      SplitEscaped(f[1..], rest, f[0] == '\\', cur + [f[0]]);
      assert cur + [f[0]] + f[1..] == cur + f;
    }
  }

  lemma {:induction false} SplitLine(row: Fields)
    requires row != [] && forall k :: 0 <= k < |row| - 1 ==> NoFinalBackslash(row[k])
    ensures Split(LineOf(row), false, "") == row
  {
    if |row| == 1 {
      SplitEscaped(row[0], "", false, "");
      assert Escape(row[0]) + "" == Escape(row[0]) && "" + row[0] == row[0];
    } else {
      var rest := "\t" + LineOf(row[1..]);
      assert NoFinalBackslash(row[0]);
      SplitEscaped(row[0], rest, false, "");
      assert Escape(row[0]) + "\t" + LineOf(row[1..]) == Escape(row[0]) + rest;
      assert "" + row[0] == row[0] && rest[1..] == LineOf(row[1..]);
      SplitLine(row[1..]);
      assert [row[0]] + row[1..] == row;
    }
  }

  lemma {:induction false} EscapeKeepsLines(f: string)
    requires OneLine(f)
    ensures OneLine(Escape(f))
    ensures f != "" && f[0] != '#' ==> Escape(f) != "" && Escape(f)[0] != '#'
  {
    if f != "" {
      EscapeKeepsLines(f[1..]);
    }
  }

  lemma {:induction false} LineIsOneLine(row: Fields)
    requires row != [] && forall k :: 0 <= k < |row| ==> OneLine(row[k])
    ensures OneLine(LineOf(row))
    ensures |row| > 1 && (row[0] == "" || row[0][0] != '#') ==> LineOf(row) != "" && LineOf(row)[0] != '#'
  {
    EscapeKeepsLines(row[0]);
    if |row| > 1 {
      LineIsOneLine(row[1..]);
    }
  }

  /** A line of any fields is read exactly when there are six of them, or a seventh that is empty. */
  lemma LineReadIff(row: Fields)
    requires row != [] && forall k :: 0 <= k < |row| - 1 ==> NoFinalBackslash(row[k])
    ensures ReadLine(LineOf(row)) ==
            if |row| == 6 then Some(row) else if |row| == 7 && row[6] == "" then Some(row[..6]) else None
  {
    SplitLine(row);
  }

  /** Lines that start with '#' are passed over. */
  lemma CommentsSkipped(comment: string, text: string)
    requires OneLine(comment)
    ensures ReadRows("#" + comment + "\n" + text) == ReadRows(text)
  {
    var (line, all) := ("#" + comment, "#" + comment + "\n" + text);
    IndexOfIs(all, '\n', |line|);
    assert all[|line| + 1..] == text;
  }

  lemma {:induction false} StorableRoundTrip(rows: seq<Fields>)
    requires forall i :: 0 <= i < |rows| ==> |rows[i]| == FIELDS && Storable(rows[i])
    ensures ReadRows(WriteRows(rows)) == Some(rows)
  {
    if rows != [] {
      StorableRoundTrip(rows[1..]);
      ReadFirst(rows);
      assert [rows[0]] + rows[1..] == rows;
    }
  }

  lemma ReadFirst(rows: seq<Fields>)
    requires rows != [] && Storable(rows[0]) && forall i :: 0 <= i < |rows| ==> |rows[i]| == FIELDS
    requires ReadRows(WriteRows(rows[1..])).Some?
    ensures ReadRows(WriteRows(rows)) == Some([rows[0]] + ReadRows(WriteRows(rows[1..])).value)
  {
    LineIsOneLine(rows[0]);
    SplitLine(rows[0]);
    ReadMore(LineOf(rows[0]), WriteRows(rows[1..]), rows[0]);
  }

  /** What one more line in front adds to the rows. */
  lemma ReadMore(line: string, rest: string, row: Fields)
    requires OneLine(line) && line != "" && line[0] != '#' && ReadLine(line) == Some(row) && ReadRows(rest).Some?
    ensures ReadRows(line + "\n" + rest) == Some([row] + ReadRows(rest).value)
  {
    var text := line + "\n" + rest;
    IndexOfIs(text, '\n', |line|);
    assert text[..|line|] == line && text[|line| + 1..] == rest;
  }

  ghost predicate Scanned(fields: Fields) {
    && (forall k :: 0 <= k < |fields| ==> OneLine(fields[k]))
    && forall k :: 0 <= k < |fields| - 1 ==> NoFinalBackslash(fields[k])
  }

  /** The scanner adds no line end, and a field that it closes never ends in a backslash. */
  lemma {:induction false} SplitImage(f: string, esc: bool, cur: string)
    requires OneLine(f) && OneLine(cur)
    requires esc <==> cur != "" && cur[|cur| - 1] == '\\'
    ensures Scanned(Split(f, esc, cur))
    ensures cur != "" && cur[0] != '#' ==> Split(f, esc, cur)[0] != "" && Split(f, esc, cur)[0][0] != '#'
  {
    if f != "" {
      if f[0] == '\t' && !esc {
        SplitImage(f[1..], false, "");
        var fields, tail := Split(f, esc, cur), Split(f[1..], false, "");
        assert forall k :: 1 <= k < |fields| ==> fields[k] == tail[k - 1];
      } else if f[0] == '\t' {
        SplitImage(f[1..], false, cur[..|cur| - 1] + "\t");
      } else {
        SplitImage(f[1..], f[0] == '\\', cur + [f[0]]);
      }
    }
  }

  lemma ReadLineImage(line: string)
    requires OneLine(line) && (line == "" || line[0] != '#')
    ensures ReadLine(line).Some? ==> Storable(ReadLine(line).value)
  {
    SplitImage(line, false, "");
    if line != "" && line[0] != '\t' {
      SplitImage(line[1..], line[0] == '\\', [line[0]]);
      assert "" + [line[0]] == [line[0]];
    }
  }

  lemma {:induction false} ReadImage(text: string)
    ensures ReadRows(text).Some? ==> forall i :: 0 <= i < |ReadRows(text).value| ==> Storable(ReadRows(text).value[i])
    decreases |text|
  {
    var i := IndexOf(text, '\n');
    if i < |text| {
      ReadImage(text[i + 1..]);
      ReadLineImage(if text[0] == '#' then "" else text[..i]);
    }
  }

  /**
    Reading a written database gives the same rows exactly when no field holds
    a line end, no row starts with '#', and no field but the last ends in a
    backslash.
   */
  lemma TextRoundTrip(rows: seq<Fields>)
    requires forall i :: 0 <= i < |rows| ==> |rows[i]| == FIELDS
    ensures ReadRows(WriteRows(rows)) == Some(rows) <==> forall i :: 0 <= i < |rows| ==> Storable(rows[i])
  {
    ReadImage(WriteRows(rows));
    if forall i :: 0 <= i < |rows| ==> Storable(rows[i]) {
      StorableRoundTrip(rows);
    }
  }

  /** A readable text that is cut off anywhere reads as the first of its rows: an unfinished line is dropped. */
  lemma {:induction false} CutReadsFewer(text: string, k: nat)
    requires ReadRows(text).Some? && k <= |text|
    ensures ReadRows(text[..k]).Some? && ReadRows(text[..k]).value <= ReadRows(text).value
    decreases |text|
  {
    var (i, cut) := (IndexOf(text, '\n'), text[..k]);
    if k <= i {
      IndexOfIs(cut, '\n', k);
    } else {
      CutReadsFewer(text[i + 1..], k - i - 1);
      CutBehindLine(text, cut, i, k);
    }
  }

  /** The first line is read alike when the cut is behind it. */
  lemma CutBehindLine(text: string, cut: string, i: nat, k: nat)
    requires i == IndexOf(text, '\n') < k <= |text| && cut == text[..k] && ReadRows(text).Some?
    requires var (rest, rest') := (ReadRows(text[i + 1..]), ReadRows(text[i + 1..][..k - i - 1]));
             rest.Some? && rest'.Some? && rest'.value <= rest.value
    ensures ReadRows(cut).Some? && ReadRows(cut).value <= ReadRows(text).value
  {
    IndexOfIs(cut, '\n', i);
    assert cut[..i] == text[..i] && cut[i + 1..] == text[i + 1..][..k - i - 1];
  }

  /** A revocation entry that ends in a backslash swallows the separator after it. */
  lemma FinalBackslashLosesRow(time: string, serial: string, name: string)
    ensures var row := ["R", time, time + ",holdInstruction,a\\", serial, "unknown", name];
            ReadRows(WriteRows([row])) != Some([row])
  {
    var row := ["R", time, time + ",holdInstruction,a\\", serial, "unknown", name];
    assert !NoFinalBackslash(row[2]);
    assert !Storable([row][0]);
    TextRoundTrip([row]);
  }
}
