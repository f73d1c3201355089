/**
  The line-prefix filter: a stream that writes a prefix in front of every line
  to a sink that may accept only part of what it is given, or fail.
 */
module PrefixFilter {

  import opened Texts

  // ---------------------------------------------------------------- what should come out

  /** The text with the prefix in front of each line; `start` says whether it begins a line. */
  function Render(prefix: string, start: bool, text: string): string
    decreases text
  {
    if text == [] then []
    else (if start then prefix else []) + [text[0]] + Render(prefix, text[0] == '\n', text[1..])
  }

  /** Whether what follows the text begins a line. */
  function StartAfter(start: bool, text: string): bool {
    if text == [] then start else text[|text| - 1] == '\n'
  }

  lemma {:induction false} RenderConcat(prefix: string, start: bool, a: string, b: string)
    ensures Render(prefix, start, a + b) == Render(prefix, start, a) + Render(prefix, StartAfter(start, a), b)
    decreases a
  {
    if a == [] {
      assert a + b == b;
    } else {
      RenderConcat(prefix, a[0] == '\n', a[1..], b);
      assert (a + b)[1..] == a[1..] + b;
      var front := (if start then prefix else []) + [a[0]];
      Associate(front, Render(prefix, a[0] == '\n', a[1..]), Render(prefix, StartAfter(start, a), b));
    }
  }

  ghost predicate OneLine(text: string) {
    forall k :: 0 <= k < |text| - 1 ==> text[k] != '\n'
  }

  /** Within one line the prefix is written at most once, at its front. */
  lemma {:induction false} RenderLine(prefix: string, start: bool, text: string)
    requires OneLine(text) && text != []
    ensures Render(prefix, start, text) == (if start then prefix else []) + text
  {
    var front := if start then prefix else [];
    if |text| > 1 {
      assert text[0] != '\n';
      RenderLine(prefix, false, text[1..]);
      assert [] + text[1..] == text[1..] && [text[0]] + text[1..] == text;
      Associate(front, [text[0]], text[1..]);
    } else {
      assert text == [text[0]] && text[1..] == [];
      assert front + [text[0]] + [] == front + [text[0]];
    }
  }

  /** Removing the prefix after each line break gives the text back. */
  function Strip(prefix: string, start: bool, out: string): (text: string)
    decreases |out|, start
  {
    if out == [] then []
    else if start then
      if prefix != [] && prefix <= out then Strip(prefix, false, out[|prefix|..]) else Strip(prefix, false, out)
    else [out[0]] + Strip(prefix, out[0] == '\n', out[1..])
  }

  lemma {:induction false} StripRender(prefix: string, start: bool, text: string)
    requires prefix != []
    ensures Strip(prefix, start, Render(prefix, start, text)) == text
    decreases text
  {
    if text != [] {
      var rest := Render(prefix, text[0] == '\n', text[1..]);
      StripRender(prefix, text[0] == '\n', text[1..]);
      StripLine(prefix, text[0], rest);
      StripPrefix(prefix, [text[0]] + rest);
      Associate(if start then prefix else [], [text[0]], rest);
      assert [] + ([text[0]] + rest) == [text[0]] + rest;
      assert [text[0]] + text[1..] == text;
    }
  }

  lemma StripLine(prefix: string, c: char, rest: string)
    ensures Strip(prefix, false, [c] + rest) == [c] + Strip(prefix, c == '\n', rest)
  {
    assert ([c] + rest)[1..] == rest;
  }

  lemma StripPrefix(prefix: string, line: string)
    requires prefix != []
    ensures Strip(prefix, true, prefix + line) == Strip(prefix, false, line)
  {
    assert (prefix + line)[|prefix|..] == line;
  }

  // ---------------------------------------------------------------- the sink

  /** How many bytes the sink takes next: none on failure, otherwise at least one of those offered. */
  class Sink {
    const takes: nat -> nat
    var clock: nat
    var out: string

    constructor (takes: nat -> nat)
      ensures this.takes == takes && out == []
    {
      this.takes, clock, out := takes, 0, [];
    }

    ghost predicate NeverFails() {
      forall t: nat :: takes(t) > 0
    }

    /** Accepts a non-empty part of the data, or fails and accepts none of it. */
    method Write(data: string) returns (ok: bool, num: nat)
      modifies this
      ensures num <= |data| && out == old(out) + data[..num]
      ensures ok && data != [] ==> num > 0
      ensures !ok ==> num == 0
      ensures ok <==> takes(old(clock)) > 0
    {
      var most := takes(clock);
      clock := clock + 1;
      ok, num := most > 0, if most < |data| then most else |data|;
      out := out + data[..num];
    }

    /** Accepts all of the data, or fails and accepts none of it. */
    method WriteWhole(data: string) returns (ok: bool)
      modifies this
      ensures out == old(out) + if ok then data else []
      ensures ok <==> takes(old(clock)) > 0
    {
      ok := takes(clock) > 0;
      clock := clock + 1;
      if ok {
        out := out + data;
      }
    }
  }

  // ---------------------------------------------------------------- the filter

  class Filter {
    var prefix: string
    var linestart: bool
    const next: Sink

    /** An absent prefix is treated like an empty one. */
    constructor (next: Sink)
      ensures this.next == next && prefix == [] && linestart
    {
      this.next, prefix, linestart := next, [], true;
    }

    method SetPrefix(prefix: string)
      modifies this`prefix
      ensures this.prefix == prefix
    {
      this.prefix := prefix;
    }

    /** The length of the first line of the text, with its line break if it has one. */
    method LineEnd(text: string) returns (i: nat, found: bool)
      requires text != []
      ensures 0 < i <= |text| && OneLine(text[..i])
      ensures found == (text[i - 1] == '\n') && (!found ==> i == |text|)
    {
      i := 0;
      while i < |text| && text[i] != '\n'
        invariant 0 <= i <= |text| && forall k :: 0 <= k < i ==> text[k] != '\n'
      {
        i := i + 1;
      }
      found := i < |text|;
      if found {
        i := i + 1;
      }
    }

    /** Writes out part of a line until all of it is taken or the sink fails. */
    method WriteLine(line: string) returns (ok: bool, num: nat)
      modifies next
      ensures num <= |line| && next.out == old(next.out) + line[..num]
      ensures ok ==> num == |line|
      ensures !ok ==> num < |line| && !next.NeverFails()
    {
      num := 0;
      while num < |line|
        invariant 0 <= num <= |line| && next.out == old(next.out) + line[..num]
      {
        var n;
        ok, n := next.Write(line[num..]);
        if !ok {
          return false, num;
        }
        assert line[..num] + line[num..][..n] == line[..num + n];
        num := num + n;
      }
      ok := true;
    }

    /** Writes the rest of one line, and notes whether a line starts behind it. */
    method WriteRest(data: string) returns (ok: bool, num: nat)
      requires data != [] && !linestart
      modifies this`linestart, next
      ensures num <= |data| && OneLine(data[..num]) && next.out == old(next.out) + data[..num]
      ensures linestart == StartAfter(false, data[..num])
      ensures ok ==> num > 0
      ensures !ok ==> num < |data| && !next.NeverFails()
    {
      var i, found := LineEnd(data);
      ok, num := WriteLine(data[..i]);
      assert data[..i][..num] == data[..num];
      if ok && found {
        linestart := true;
      }
    }

    /** Writes the prefix if it is due, and then the rest of one line. */
    method WriteNext(data: string) returns (ok: bool, num: nat)
      requires prefix != [] && data != []
      modifies this`linestart, next
      ensures num <= |data| && Emitted(prefix, old(linestart), data[..num], linestart, old(next.out), next.out)
      ensures ok ==> num > 0 && linestart == StartAfter(old(linestart), data[..num])
      ensures !ok ==> num < |data| && !next.NeverFails()
    {
      ghost var (start, before) := (linestart, next.out);
      if linestart {
        ok := next.WriteWhole(prefix);
        if !ok {
          return false, 0;
        }
        linestart := false;
      }
      ok, num := WriteRest(data);
      LineEmitted(prefix, start, data[..num], linestart, before, next.out);
    }

    /**
      Writes data behind the prefix of each line. What the sink gains is the
      rendering of the bytes counted in `num`, and one prefix more exactly when
      the filter stopped between a prefix and its line.
     */
    method Write(data: string) returns (ok: bool, num: nat)
      modifies this`linestart, next
      ensures num <= |data|
      ensures prefix != [] ==>
                && Emitted(prefix, old(linestart), data[..num], linestart, old(next.out), next.out)
                && (ok <==> num == |data|) && (next.NeverFails() ==> ok)
                && (ok ==> linestart == StartAfter(old(linestart), data))
      ensures prefix == [] ==>
                && next.out == old(next.out) + data[..num]
                && linestart == StartAfter(old(linestart), data)
    {
      if prefix == [] {
        if |data| > 0 {
          linestart := data[|data| - 1] == '\n';
        }
        ok, num := next.Write(data);
        return;
      }
      num := 0;
      while num < |data|
        invariant 0 <= num <= |data| && linestart == StartAfter(old(linestart), data[..num])
        invariant Emitted(prefix, old(linestart), data[..num], linestart, old(next.out), next.out)
      {
        ghost var (at, start, out) := (num, linestart, next.out);
        var n;
        ok, n := WriteNext(data[num..]);
        ghost var part := data[num..][..n];
        num := num + n;
        assert data[..num] == data[..at] + part;
        EmittedMore(prefix, old(linestart), data[..at], start, part, linestart, old(next.out), out, next.out);
        if !ok {
          return;
        }
      }
      assert data[..num] == data;
      ok := true;
    }
  }

  /**
    From `before` to `after` the sink gained the rendering of `text`, and one
    prefix more when the filter no longer notes the line start it has reached.
   */
  ghost predicate Emitted(prefix: string, start: bool, text: string, noted: bool, before: string, after: string) {
    && (noted ==> StartAfter(start, text))
    && after == before + Render(prefix, start, text) + if StartAfter(start, text) && !noted then prefix else []
  }

  /** A prefix and part of one line. */
  lemma LineEmitted(prefix: string, start: bool, part: string, noted: bool, before: string, after: string)
    requires OneLine(part) && noted == StartAfter(false, part)
    requires after == before + (if start then prefix else []) + part
    ensures Emitted(prefix, start, part, noted, before, after)
  {
    if part != [] {
      RenderLine(prefix, start, part);
      Associate(before, if start then prefix else [], part);
    }
  }

  /** Two stretches of output make one, also when the second begins behind a prefix already written. */
  lemma EmittedMore(prefix: string, start: bool, text: string, noted: bool, more: string, noted': bool, a: string, b: string, c: string)
    requires Emitted(prefix, start, text, noted, a, b) && Emitted(prefix, noted, more, noted', b, c)
    ensures Emitted(prefix, start, text + more, noted', a, c)
  {
    if more == [] {
      assert text + more == text;
      EmittedNothing(prefix, start, text, noted, noted', a, b, c);
    } else {
      var (at, after) := (StartAfter(start, text), StartAfter(noted, more));
      assert StartAfter(start, text + more) == after;
      var due := if at && !noted then prefix else [];
      var tail := if after && !noted' then prefix else [];
      RenderConcat(prefix, start, text, more);
      DuePrefix(prefix, at, noted, more);
      Join(a, Render(prefix, start, text), due, Render(prefix, noted, more), tail);
    }
  }

  lemma EmittedNothing(prefix: string, start: bool, text: string, noted: bool, noted': bool, a: string, b: string, c: string)
    requires Emitted(prefix, start, text, noted, a, b) && Emitted(prefix, noted, [], noted', b, c)
    ensures Emitted(prefix, start, text, noted', a, c)
  {
    var gained := if noted && !noted' then prefix else [];
    assert c == b + [] + gained == b + gained;
    if noted {
      assert b == a + Render(prefix, start, text) + [] == a + Render(prefix, start, text);
    }
  }

  lemma Join(a: string, first: string, due: string, second: string, tail: string)
    ensures a + first + due + second + tail == a + (first + (due + second)) + tail
  {
  }

  lemma DuePrefix(prefix: string, start: bool, noted: bool, text: string)
    requires text != [] && (noted ==> start)
    ensures (if start && !noted then prefix else []) + Render(prefix, noted, text) == Render(prefix, start, text)
  {
    var rest := Render(prefix, text[0] == '\n', text[1..]);
    Associate(prefix, [text[0]], rest);
    assert [] + [text[0]] == [text[0]];
    assert [] + Render(prefix, start, text) == Render(prefix, start, text);
  }

  // ---------------------------------------------------------------- whole streams

  /** Writes one chunk, resuming after the bytes counted as written whenever the sink has failed. */
  method WriteResuming(f: Filter, chunk: string, tries: nat) returns (num: nat, left: nat)
    requires f.prefix != []
    modifies f`linestart, f.next
    ensures num <= |chunk| && left <= tries && (num < |chunk| ==> left == 0)
    ensures Emitted(f.prefix, old(f.linestart), chunk[..num], f.linestart, old(f.next.out), f.next.out)
    ensures num == |chunk| ==> f.linestart == StartAfter(old(f.linestart), chunk)
    ensures f.next.NeverFails() && tries > 0 ==> num == |chunk| && left >= tries - 1
  {
    num, left := 0, tries;
    ghost var (begun, before) := (f.linestart, f.next.out);
    while num < |chunk| && left > 0
      invariant 0 <= num <= |chunk| && left <= tries
      invariant Emitted(f.prefix, begun, chunk[..num], f.linestart, before, f.next.out)
      invariant num == |chunk| ==> f.linestart == StartAfter(begun, chunk)
      invariant f.next.NeverFails() ==> left >= tries - (if num < |chunk| then 0 else 1)
      decreases left
    {
      ghost var (at, start, out) := (num, f.linestart, f.next.out);
      var ok, n := f.Write(chunk[num..]);
      num, left := num + n, left - 1;
      Resumed(f.prefix, begun, chunk, at, n, start, f.linestart, before, out, f.next.out);
    }
  }

  /** A write that goes on behind the bytes already counted. */
  lemma Resumed(prefix: string, begun: bool, chunk: string, at: nat, n: nat, start: bool, noted: bool, a: string, b: string, c: string)
    requires at < |chunk| && n <= |chunk| - at
    requires Emitted(prefix, begun, chunk[..at], start, a, b) && Emitted(prefix, start, chunk[at..][..n], noted, b, c)
    ensures Emitted(prefix, begun, chunk[..at + n], noted, a, c)
    ensures at + n == |chunk| ==> StartAfter(start, chunk[at..]) == StartAfter(begun, chunk)
  {
    EmittedMore(prefix, begun, chunk[..at], start, chunk[at..][..n], noted, a, b, c);
    assert chunk[..at] + chunk[at..][..n] == chunk[..at + n];
    assert chunk[at..][|chunk| - at - 1] == chunk[|chunk| - 1];
  }

  function Concat(chunks: seq<string>): string {
    if chunks == [] then [] else Concat(chunks[..|chunks| - 1]) + chunks[|chunks| - 1]
  }

  /**
    Writes a text in chunks through a new filter. However it is split, and
    whatever the sink refuses or takes in part, once all is written the sink
    holds the rendering of the whole text and nothing else.
   */
  method WriteChunks(sink: Sink, prefix: string, chunks: seq<string>, tries: nat) returns (done: bool)
    requires prefix != [] && sink.out == []
    modifies sink
    ensures done ==> sink.out == Render(prefix, true, Concat(chunks))
    ensures done ==> Strip(prefix, true, sink.out) == Concat(chunks)
    ensures sink.NeverFails() && tries >= |chunks| ==> done
  {
    var f := new Filter(sink);
    f.SetPrefix(prefix);
    var left: nat := tries;
    assert chunks[..0] == [];
    for i := 0 to |chunks|
      invariant f.prefix == prefix && (sink.NeverFails() ==> left >= tries - i)
      invariant f.linestart == StartAfter(true, Concat(chunks[..i]))
      invariant sink.out == Render(prefix, true, Concat(chunks[..i]))
    {
      ghost var text := Concat(chunks[..i]);
      var num;
      num, left := WriteResuming(f, chunks[i], left);
      if num < |chunks[i]| {
        return false;
      }
      assert chunks[i][..num] == chunks[i] && chunks[..i + 1][..i] == chunks[..i];
      RenderConcat(prefix, true, text, chunks[i]);
    }
    assert chunks[..|chunks|] == chunks;
    StripRender(prefix, true, Concat(chunks));
    done := true;
  }
}
