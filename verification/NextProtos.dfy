/** The protocol list of section 3.1 of RFC 7301: comma-separated names to length-prefixed strings. */
module NextProtos {

  import opened Options
  import opened Texts

  newtype Byte = b: int | 0 <= b < 256

  const COMMA: Byte := 0x2C

  // ---------------------------------------------------------------- the text

  /** The text between the commas. */
  function Fields(s: seq<Byte>): (r: seq<seq<Byte>>)
    ensures r != []
  {
    if s == [] then [[]]
    else
      WithByte(Fields(s[..|s| - 1]), s[|s| - 1])
  }

  function Join(fields: seq<seq<Byte>>): seq<Byte>
    requires fields != []
  {
    var n := |fields| - 1;
    if n == 0 then fields[0] else Join(fields[..n]) + [COMMA] + fields[n]
  }

  /** The fields are the text cut at its commas, all of them. */
  lemma {:induction false} FieldsAreTheText(s: seq<Byte>)
    ensures Join(Fields(s)) == s
    ensures forall k :: 0 <= k < |Fields(s)| ==> COMMA !in Fields(s)[k]
  {
    if s != [] {
      var (n, c) := (|s| - 1, s[|s| - 1]);
      FieldsAreTheText(s[..n]);
      FieldsMore(Fields(s[..n]), s[..n], c);
      assert s == s[..n] + [c];
    }
  }

  function WithByte(fields: seq<seq<Byte>>, c: Byte): (r: seq<seq<Byte>>)
    requires fields != []
    ensures r != []
  {
    var m := |fields| - 1;
    if c == COMMA then fields + [[]] else fields[..m] + [fields[m] + [c]]
  }

  lemma FieldsMore(fields: seq<seq<Byte>>, s: seq<Byte>, c: Byte)
    requires fields != [] && Join(fields) == s && forall k :: 0 <= k < |fields| ==> COMMA !in fields[k]
    ensures Join(WithByte(fields, c)) == s + [c]
    ensures forall k :: 0 <= k < |WithByte(fields, c)| ==> COMMA !in WithByte(fields, c)[k]
  {
    if c == COMMA {
      JoinNext(fields);
    } else {
      JoinMore(fields, c);
    }
  }

  lemma JoinNext(fields: seq<seq<Byte>>)
    requires fields != []
    ensures Join(fields + [[]]) == Join(fields) + [COMMA]
  {
    assert (fields + [[]])[..|fields|] == fields;
  }

  lemma JoinMore(fields: seq<seq<Byte>>, c: Byte)
    requires fields != []
    ensures var m := |fields| - 1;
            Join(fields[..m] + [fields[m] + [c]]) == Join(fields) + [c]
  {
    var m := |fields| - 1;
    assert (fields[..m] + [fields[m] + [c]])[..m] == fields[..m];
    if m > 0 {
      Associate(Join(fields[..m]) + [COMMA], fields[m], [c]);
    }
  }

  function NonEmpty(fields: seq<seq<Byte>>): seq<seq<Byte>> {
    if fields == [] then []
    else
      var n := |fields| - 1;
      NonEmpty(fields[..n]) + if fields[n] == [] then [] else [fields[n]]
  }

  /** The protocol names of a text. */
  function Tokens(s: seq<Byte>): seq<seq<Byte>> {
    NonEmpty(Fields(s))
  }

  // ---------------------------------------------------------------- the wire

  predicate Fits(token: seq<Byte>) {
    0 < |token| <= 255
  }

  predicate AllFit(tokens: seq<seq<Byte>>) {
    forall k :: 0 <= k < |tokens| ==> Fits(tokens[k])
  }

  function WireOf(token: seq<Byte>): seq<Byte>
    requires Fits(token)
  {
    [|token| as Byte] + token
  }

  function Wire(tokens: seq<seq<Byte>>): seq<Byte>
    requires AllFit(tokens)
  {
    if tokens == [] then [] else Wire(tokens[..|tokens| - 1]) + WireOf(tokens[|tokens| - 1])
  }

  lemma WireAppend(tokens: seq<seq<Byte>>, token: seq<Byte>)
    requires AllFit(tokens) && Fits(token)
    ensures AllFit(tokens + [token]) && Wire(tokens + [token]) == Wire(tokens) + WireOf(token)
  {
    assert (tokens + [token])[..|tokens|] == tokens;
  }

  function TotalLength(tokens: seq<seq<Byte>>): nat {
    if tokens == [] then 0 else TotalLength(tokens[..|tokens| - 1]) + |tokens[|tokens| - 1]| + 1
  }

  lemma {:induction false} WireLength(tokens: seq<seq<Byte>>)
    requires AllFit(tokens)
    ensures |Wire(tokens)| == TotalLength(tokens) >= 2 * |tokens|
  {
    if tokens != [] {
      WireLength(tokens[..|tokens| - 1]);
    }
  }

  /** Reads a protocol list: each name has a length byte in front and is not empty. */
  function Unwire(wire: seq<Byte>): Option<seq<seq<Byte>>> {
    if wire == [] then Some([])
    else
      var n := wire[0] as int;
      if n == 0 || n >= |wire| then None
      else
        match Unwire(wire[n + 1..])
        case None => None
        case Some(rest) => Some([wire[1..n + 1]] + rest)
  }

  lemma {:induction false} WireFront(tokens: seq<seq<Byte>>)
    requires AllFit(tokens) && tokens != []
    ensures Wire(tokens) == WireOf(tokens[0]) + Wire(tokens[1..])
  {
    var n := |tokens| - 1;
    if n > 0 {
      WireFront(tokens[..n]);
      var middle := tokens[..n][1..];
      assert middle == tokens[1..][..n - 1];
      Associate(WireOf(tokens[0]), Wire(middle), WireOf(tokens[n]));
    } else {
      assert [] + WireOf(tokens[0]) == WireOf(tokens[0]) + [];
    }
  }

  lemma UnwireFront(token: seq<Byte>, rest: seq<Byte>)
    requires Fits(token) && Unwire(rest).Some?
    ensures Unwire(WireOf(token) + rest) == Some([token] + Unwire(rest).value)
  {
    var wire := WireOf(token) + rest;
    assert wire[0] as int == |token|;
    assert wire[|token| + 1..] == rest && wire[1..|token| + 1] == token;
  }

  /** Reading back gives the names. */
  lemma {:induction false} UnwireWire(tokens: seq<seq<Byte>>)
    requires AllFit(tokens)
    ensures Unwire(Wire(tokens)) == Some(tokens)
  {
    if tokens != [] {
      UnwireWire(tokens[1..]);
      WireFront(tokens);
      UnwireFront(tokens[0], Wire(tokens[1..]));
      assert tokens == [tokens[0]] + tokens[1..];
    }
  }

  // ---------------------------------------------------------------- the conversion

  /** Texts that are refused. */
  ghost predicate Refused(s: seq<Byte>) {
    |s| == 0 || |s| >= 65535 || Tokens(s) == [] || !AllFit(Tokens(s))
  }

  lemma {:induction false} NonEmptyAre(fields: seq<seq<Byte>>, field: seq<Byte>)
    ensures field in NonEmpty(fields) <==> field in fields && field != []
  {
    if fields != [] {
      var n := |fields| - 1;
      NonEmptyAre(fields[..n], field);
      assert fields == fields[..n] + [fields[n]];
    }
  }

  /** Refused are empty texts, those too long, and those without a name or with one longer than a length byte can say. */
  lemma RefusedIff(s: seq<Byte>)
    ensures Refused(s) <==> |s| == 0 || |s| >= 65535 || Tokens(s) == [] || exists k :: 0 <= k < |Tokens(s)| && |Tokens(s)[k]| > 255
  {
    forall k | 0 <= k < |Tokens(s)|
      ensures Tokens(s)[k] != []
    {
      NonEmptyAre(Fields(s), Tokens(s)[k]);
    }
  }

  lemma {:induction false} NonEmptyMember(fields: seq<seq<Byte>>, k: nat)
    requires k < |fields| && fields[k] != []
    ensures fields[k] in NonEmpty(fields)
  {
    var n := |fields| - 1;
    if k < n {
      NonEmptyMember(fields[..n], k);
    }
  }

  /** Fields of a part of the text, all but the last, stay fields of the whole. */
  lemma {:induction false} FieldsGrow(s: seq<Byte>, i: nat)
    requires i <= |s|
    ensures |Fields(s[..i])| <= |Fields(s)|
    ensures forall k :: 0 <= k < |Fields(s[..i])| - 1 ==> Fields(s)[k] == Fields(s[..i])[k]
    decreases |s|
  {
    if i == |s| {
      assert s[..i] == s;
    } else {
      var n := |s| - 1;
      FieldsGrow(s[..n], i);
      assert s[..n][..i] == s[..i];
    }
  }

  /**
    The text before position `i` is handled: the buffer holds the complete
    names, a free byte, and then the part of the name begun at `start`.
   */
  ghost predicate Filled(s: seq<Byte>, i: nat, start: nat, skipped: nat, done: seq<seq<Byte>>, b: seq<Byte>) {
    && |b| == |s| + 1 && skipped <= start <= i <= |b|
    && AllFit(done) && b[..start - skipped] == Wire(done)
    && if i > |s| then start == i && done == Tokens(s)
       else Cut(s, i, start, done) && b[start + 1 - skipped..i + 1 - skipped] == s[start..i]
  }

  lemma FilledSkip(s: seq<Byte>, i: nat, skipped: nat, done: seq<seq<Byte>>, b: seq<Byte>)
    requires i <= |s| && Filled(s, i, i, skipped, done, b) && (i == |s| || s[i] == COMMA)
    ensures Filled(s, i + 1, i + 1, skipped + 1, done, b)
  {
    CutComma(s, i, i, done);
  }

  lemma FilledEnd(s: seq<Byte>, skipped: nat, done: seq<seq<Byte>>, b: seq<Byte>)
    requires Filled(s, |s| + 1, |s| + 1, skipped, done, b)
    ensures var at := |s| + 1 - skipped;
            && AllFit(Tokens(s)) && b[..at] == Wire(Tokens(s)) && Unwire(b[..at]) == Some(Tokens(s))
            && at == TotalLength(Tokens(s)) && (at > 1 <==> Tokens(s) != [])
  {
    WireLength(done);
    UnwireWire(done);
  }

  /** Puts the length of a complete name in front of it. */
  method PutLength(ghost s: seq<Byte>, i: nat, start: nat, skipped: nat, ghost done: seq<seq<Byte>>, b: array<Byte>)
    requires start < i <= |s| && i - start <= 255 && Filled(s, i, start, skipped, done, b[..]) && (i == |s| || s[i] == COMMA)
    modifies b
    ensures Filled(s, i + 1, i + 1, skipped, done + [s[start..i]], b[..])
  {
    ghost var (token, at, n) := (s[start..i], start - skipped, i - start);
    b[start - skipped] := (i - start) as Byte;
    assert b[..at] == old(b[..at]) && b[at + 1..at + 1 + n] == token;
    assert b[..at + 1 + n] == b[..at] + WireOf(token);
    assert b[..][..at + 1 + n] == b[..at + 1 + n];
    WireAppend(done, token);
    CutComma(s, i, start, done);
  }

  /** Puts a byte behind the part of the name already stored. */
  method PutByte(s: seq<Byte>, i: nat, start: nat, skipped: nat, ghost done: seq<seq<Byte>>, b: array<Byte>)
    requires i < |s| && Filled(s, i, start, skipped, done, b[..]) && s[i] != COMMA
    modifies b
    ensures Filled(s, i + 1, start, skipped, done, b[..])
  {
    CutOther(s, i, start, done);
    ghost var at := start - skipped;
    b[i + 1 - skipped] := s[i];
    assert b[..at] == old(b[..at]) && b[at + 1..i + 1 - skipped] == s[start..i];
    assert s[start..i + 1] == s[start..i] + [s[i]];
  }

  /** Goes over the text once, storing names and lengths; stops at a name that is too long. */
  method Fill(s: seq<Byte>, buffer: array<Byte>) returns (ok: bool, skipped: nat, ghost done: seq<seq<Byte>>)
    requires buffer.Length == |s| + 1
    modifies buffer
    ensures ok ==> Filled(s, |s| + 1, |s| + 1, skipped, done, buffer[..])
    ensures !ok ==> !AllFit(Tokens(s))
  {
    var len := |s|;
    var start, i := 0, 0;
    skipped, done := 0, [];
    assert s[..0] == [];
    while i <= len
      invariant 0 <= start && Filled(s, i, start, skipped, done, buffer[..])
    {
      if i == len || s[i] == COMMA {
        if i == start {
          FilledSkip(s, i, skipped, done, buffer[..]);
          start := start + 1;
          skipped := skipped + 1;
        } else {
          if i - start > 255 {
            CutComma(s, i, start, done);
            return false, skipped, done;
          }
          PutLength(s, i, start, skipped, done, buffer);
          done := done + [s[start..i]];
          start := i + 1;
        }
      } else {
        PutByte(s, i, start, skipped, done, buffer);
      }
      i := i + 1;
    }
    ok := true;
  }

  /**
    Converts a text to a protocol list inside a buffer one byte longer than the
    text: gives the buffer and how much of it is used, or nothing.
   */
  method Parse(s: seq<Byte>) returns (out: array?<Byte>, outlen: nat)
    ensures out == null <==> |s| == 0 || |s| >= 65535 || Tokens(s) == [] || exists k :: 0 <= k < |Tokens(s)| && |Tokens(s)[k]| > 255
    ensures out != null ==>
              && fresh(out) && outlen <= out.Length == |s| + 1 && AllFit(Tokens(s))
              && out[..outlen] == Wire(Tokens(s)) && outlen == TotalLength(Tokens(s))
              && Unwire(out[..outlen]) == Some(Tokens(s))
  {
    var len := |s|;
    if len == 0 || len >= 65535 {
      return null, 0;
    }
    var buffer := new Byte[len + 1];
    var ok, skipped, done := Fill(s, buffer);
    RefusedIff(s);
    if !ok {
      return null, 0;
    }
    FilledEnd(s, skipped, done, buffer[..]);
    if len <= skipped {
      return null, 0;
    }
    out, outlen := buffer, len + 1 - skipped;
  }

  /** The names complete before position `i`, and where the field at `i` starts. */
  ghost predicate Cut(s: seq<Byte>, i: nat, start: nat, done: seq<seq<Byte>>)
    requires start <= i <= |s|
  {
    var fields := Fields(s[..i]);
    fields[|fields| - 1] == s[start..i] && done == NonEmpty(fields[..|fields| - 1])
  }

  /** A comma, or the end, completes the field. */
  lemma CutComma(s: seq<Byte>, i: nat, start: nat, done: seq<seq<Byte>>)
    requires start <= i <= |s| && Cut(s, i, start, done) && (i == |s| || s[i] == COMMA)
    ensures var all := if i == start then done else done + [s[start..i]];
            if i == |s| then all == Tokens(s) else Cut(s, i + 1, i + 1, all)
    ensures i - start > 255 ==> !AllFit(Tokens(s))
  {
    var fields := Fields(s[..i]);
    var m := |fields| - 1;
    assert NonEmpty(fields) == if i == start then done else done + [s[start..i]];
    if i == |s| {
      assert s[..i] == s;
    } else {
      assert s[..i + 1][..i] == s[..i];
      assert Fields(s[..i + 1]) == fields + [[]];
      assert (fields + [[]])[..m + 1] == fields;
    }
    if i - start > 255 {
      FieldsGrow(s, if i == |s| then i else i + 1);
      assert s[start..i] == Fields(s)[m];
      NonEmptyMember(Fields(s), m);
    }
  }

  lemma CutOther(s: seq<Byte>, i: nat, start: nat, done: seq<seq<Byte>>)
    requires start <= i < |s| && Cut(s, i, start, done) && s[i] != COMMA
    ensures Cut(s, i + 1, start, done)
  {
    var fields := Fields(s[..i]);
    var m := |fields| - 1;
    assert s[..i + 1][..i] == s[..i];
    assert Fields(s[..i + 1])[..m] == fields[..m];
    assert s[start..i + 1] == s[start..i] + [s[i]];
  }
}
