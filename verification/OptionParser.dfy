/** The command-line option parser: one option a call, with its value behind '=' or in the next word. */
module OptionParser {

  import opened Options
  import opened Texts

  /** An entry of an option table; the value type is '\0' or '-' for options without a value. */
  datatype Opt = Opt(name: string, retval: int, valtype: char)

  /** The checks on values: directories, numbers and formats. */
  type Check = (char, string) -> bool

  const CHECKED: set<char> := {'/', 'p', 'n', 'M', 'U', 'l', 'u', 'c', 'E', 'F', 'f'}

  datatype Table = Table(opts: seq<Opt>, check: Check) {
    /** What tables must satisfy: positive codes, and no value for the catch-all entry, whose name is empty. */
    predicate Legal() {
      forall i :: 0 <= i < |opts| ==> opts[i].retval > 0 && (opts[i].name == "" ==> !TakesValue(opts[i]))
    }
  }

  predicate TakesValue(o: Opt) {
    o.valtype != '\0' && o.valtype != '-'
  }

  predicate ValueOk(t: Table, o: Opt, value: string) {
    o.valtype in CHECKED ==> t.check(o.valtype, value)
  }

  // ---------------------------------------------------------------- words

  /** Words that are options: they start with '-'. */
  predicate IsOption(word: string) {
    word != "" && word[0] == '-'
  }

  /** How many dashes stand before the name. */
  function Dashes(word: string): (n: nat)
    requires IsOption(word)
    ensures 1 <= n <= 2 && n <= |word|
  {
    if |word| > 1 && word[1] == '-' then 2 else 1
  }

  /** The word without the '=' and what follows. */
  function Snipped(word: string): (r: string)
    requires IsOption(word)
    ensures Dashes(word) <= |r| <= |word|
  {
    var d := Dashes(word);
    word[..d + IndexOf(word[d..], '=')]
  }

  function NameOf(word: string): string
    requires IsOption(word)
  {
    Snipped(word)[Dashes(word)..]
  }

  function ValueIn(word: string): Option<string>
    requires IsOption(word)
  {
    if |Snipped(word)| == |word| then None else Some(word[|Snipped(word)| + 1..])
  }

  /** The flag as it is shown, with one dash. */
  function FlagOf(word: string): string
    requires IsOption(word)
  {
    Snipped(word)[Dashes(word) - 1..]
  }

  /** The first entry with a name, or the number of entries. */
  function Find(opts: seq<Opt>, name: string): (i: nat)
    ensures i <= |opts| && (i < |opts| ==> opts[i].name == name)
    ensures forall k :: 0 <= k < i ==> opts[k].name != name
  {
    if opts == [] || opts[0].name == name then 0 else 1 + Find(opts[1..], name)
  }

  /** A word written as one or two dashes, the name, and perhaps '=' and a value. */
  ghost predicate Spells(word: string, name: string, given: Option<string>) {
    var text := name + if given.None? then "" else "=" + given.value;
    && '=' !in name
    && (word == "--" + text || (word == "-" + text && (name == "" || name[0] != '-')))
  }

  /** Name and value as parts of what stands behind the dashes. */
  lemma PartsOf(word: string, tail: string)
    requires IsOption(word) && tail == word[Dashes(word)..]
    ensures var q := IndexOf(tail, '=');
            NameOf(word) == tail[..q] && ValueIn(word) == if q == |tail| then None else Some(tail[q + 1..])
  {
    var (d, q) := (Dashes(word), IndexOf(tail, '='));
    assert word[..d + q][d..] == tail[..q];
    if q < |tail| {
      assert word[d + q + 1..] == tail[q + 1..];
    }
  }

  /** Name and value of an option word are the only ones that it can spell. */
  lemma WordSpells(word: string, name: string, given: Option<string>)
    requires IsOption(word)
    ensures Spells(word, name, given) <==> name == NameOf(word) && given == ValueIn(word)
  {
    if Spells(word, name, given) {
      var text := name + if given.None? then "" else "=" + given.value;
      var d := SpelledDashes(word, text, name);
      EqualsAt(text, name, given);
      PartsOf(word, text);
    }
    if name == NameOf(word) && given == ValueIn(word) {
      PartsOf(word, word[Dashes(word)..]);
      PartsSpell(word, word[Dashes(word)..], name, given);
    }
  }

  lemma PartsSpell(word: string, tail: string, name: string, given: Option<string>)
    requires IsOption(word) && tail == word[Dashes(word)..]
    requires var q := IndexOf(tail, '=');
             name == tail[..q] && given == if q == |tail| then None else Some(tail[q + 1..])
    ensures Spells(word, name, given)
  {
    TailJoins(tail, IndexOf(tail, '='));
    WordJoins(word, tail);
  }

  lemma TailJoins(tail: string, q: nat)
    requires q <= |tail| && (q < |tail| ==> tail[q] == '=')
    ensures tail == tail[..q] + if q == |tail| then "" else "=" + tail[q + 1..]
  {
    if q < |tail| {
      assert tail[q..] == "=" + tail[q + 1..];
      assert tail == tail[..q] + tail[q..];
    } else {
      assert tail[..q] == tail && tail[..q] + "" == tail[..q];
    }
  }

  lemma WordJoins(word: string, tail: string)
    requires IsOption(word) && tail == word[Dashes(word)..]
    ensures word == (if Dashes(word) == 2 then "--" else "-") + tail
    ensures Dashes(word) == 1 && tail != "" ==> tail[0] != '-'
  {
    var d := Dashes(word);
    assert word[..d] == if d == 2 then "--" else "-";
    assert word == word[..d] + word[d..];
    assert d == 1 && tail != "" ==> tail[0] == word[1];
  }

  /** The flag shown is one dash and the name. */
  lemma FlagIsName(word: string)
    requires IsOption(word)
    ensures FlagOf(word) == "-" + NameOf(word) && FlagOf(word)[1..] == NameOf(word)
  {
    var (d, s) := (Dashes(word), Snipped(word));
    assert s[d - 1] == word[d - 1] == '-';
    assert s[d - 1..] == [s[d - 1]] + s[d..];
  }

  lemma SpelledDashes(word: string, text: string, name: string) returns (d: nat)
    requires IsOption(word) && name <= text && (name < text ==> text[|name|] == '=')
    requires word == "--" + text || (word == "-" + text && (name == "" || name[0] != '-'))
    ensures d == Dashes(word) && word[d..] == text
  {
    d := if word == "--" + text then 2 else 1;
    assert word[d..] == text;
    if d == 1 && text != [] {
      assert word[1] == text[0] && (name != "" ==> text[0] == name[0]);
    }
  }

  lemma EqualsAt(text: string, name: string, given: Option<string>)
    requires '=' !in name && text == name + if given.None? then "" else "=" + given.value
    ensures IndexOf(text, '=') == |name| && text[..|name|] == name
    ensures if given.None? then |text| == |name| else |text| > |name| && text[|name| + 1..] == given.value
  {
    IndexOfIs(text, '=', |name|);
  }

  // ---------------------------------------------------------------- one call

  /** What the program sees after a call: the code, the flag, its value, and the last option that was unknown. */
  datatype Event = Event(code: int, flag: string, arg: Option<string>, dunno: string)

  datatype Step = Stop(used: nat) | Error(used: nat) | Found(event: Event, used: nat)

  /** An option that takes a value, behind '=' or in the next word. */
  function TakeValue(t: Table, o: Opt, flag: string, given: Option<string>, rest: seq<string>, dunno: string): (r: Step)
    ensures !r.Stop? && 1 <= r.used <= 1 + |rest|
    ensures given.Some? ==> r.used == 1
  {
    if given.None? && rest == [] then Error(1)
    else
      var (value, used) := if given.Some? then (given.value, 1) else (rest[0], 2);
      if ValueOk(t, o, value) then Found(Event(o.retval, flag, Some(value), dunno), used) else Error(used)
  }

  /** An option by name, with the value given behind '=' and the words that follow. */
  function Take(t: Table, name: string, flag: string, given: Option<string>, rest: seq<string>, dunno: string): (r: Step)
    ensures !r.Stop? && 1 <= r.used <= 1 + |rest|
  {
    var (i, u) := (Find(t.opts, name), Find(t.opts, ""));
    if i == |t.opts| then
      if u == |t.opts| then Error(1) else Found(Event(t.opts[u].retval, flag, given, name), 1)
    else if TakesValue(t.opts[i]) then TakeValue(t, t.opts[i], flag, given, rest, dunno)
    else if given.Some? then Error(1)
    else Found(Event(t.opts[i].retval, flag, None, dunno), 1)
  }

  /** What the next call does with the words that are left. */
  function Next(t: Table, words: seq<string>, dunno: string): (r: Step)
    ensures r.used <= |words| && (!r.Stop? ==> r.used >= 1)
  {
    if words == [] || !IsOption(words[0]) then Stop(0)
    else if words[0] == "--" then Stop(1)
    else TakeWord(t, words[0], words[1..], dunno)
  }

  /** An option word and the words that follow. */
  function TakeWord(t: Table, word: string, rest: seq<string>, dunno: string): (r: Step)
    requires IsOption(word)
    ensures !r.Stop? && 1 <= r.used <= 1 + |rest|
  {
    Take(t, NameOf(word), FlagOf(word), ValueIn(word), rest, dunno)
  }

  /** What is seen after a call. */
  datatype Seen = Seen(code: int, flag: string, arg: Option<string>, dunno: string)

  /** An option without a value has its code, unless it was given one. */
  ghost predicate PlainAnswer(o: Opt, given: Option<string>, dunno: string, seen: Seen, used: int) {
    && used == 1
    && if given.Some? then seen.code == -1 else seen == Seen(o.retval, "-" + o.name, None, dunno)
  }

  /** An option with a value takes what was given with it, or else the next word, and has its code unless that is missing or refused. */
  ghost predicate ValueAnswer(t: Table, o: Opt, given: Option<string>, rest: seq<string>, dunno: string, seen: Seen, used: int) {
    if given.None? && rest == [] then used == 1 && seen.code == -1
    else
      var value := if given.Some? then given.value else rest[0];
      && used == (if given.Some? then 1 else 2)
      && if o.valtype in "/pnMUlucEFf" ==> t.check(o.valtype, value) then seen == Seen(o.retval, "-" + o.name, Some(value), dunno) else seen.code == -1
  }

  /** A name that is not in the table goes to the first entry with the empty name, and is noted; -1 if there is none. */
  ghost predicate UnknownAnswer(t: Table, name: string, given: Option<string>, seen: Seen, used: int) {
    var u := Find(t.opts, "");
    && used == 1
    && if u < |t.opts| then seen == Seen(t.opts[u].retval, "-" + name, given, name) else seen.code == -1
  }

  /** The answer to the words that are left: 0 at their end, before a word that is no option, and after "--"; else by the first entry with the name. */
  ghost predicate Answered(t: Table, words: seq<string>, dunno: string, seen: Seen, used: int) {
    if words == [] || !IsOption(words[0]) then seen.code == 0 && used == 0
    else if words[0] == "--" then seen.code == 0 && used == 1
    else
      var (name, given) := (NameOf(words[0]), ValueIn(words[0]));
      var i := Find(t.opts, name);
      if i == |t.opts| then UnknownAnswer(t, name, given, seen, used)
      else if t.opts[i].valtype !in "-\0" then ValueAnswer(t, t.opts[i], given, words[1..], dunno, seen, used)
      else PlainAnswer(t.opts[i], given, dunno, seen, used)
  }

  /** A step as it is seen. */
  ghost predicate Displays(seen: Seen, step: Step) {
    match step
    case Stop(_) => seen.code == 0
    case Error(_) => seen.code == -1
    case Found(event, _) => seen == Seen(event.code, event.flag, event.arg, event.dunno)
  }

  lemma StepAnswers(t: Table, words: seq<string>, dunno: string, seen: Seen)
    requires Displays(seen, Next(t, words, dunno))
    ensures Answered(t, words, dunno, seen, Next(t, words, dunno).used)
  {
    if words != [] && IsOption(words[0]) {
      FlagIsName(words[0]);
    }
  }

  /** A result that the table accounts for: the code of the first entry with the flag's name, or of the catch-all entry. */
  ghost predicate FromTable(t: Table, e: Event) {
    && IsOption(e.flag)
    && var (i, u) := (Find(t.opts, e.flag[1..]), Find(t.opts, ""));
       if i < |t.opts| then
         e.code == t.opts[i].retval && if TakesValue(t.opts[i]) then e.arg.Some? && ValueOk(t, t.opts[i], e.arg.value) else e.arg.None?
       else
         u < |t.opts| && e.code == t.opts[u].retval && e.dunno == e.flag[1..]
  }

  lemma NextFromTable(t: Table, words: seq<string>, dunno: string)
    requires Next(t, words, dunno).Found?
    ensures FromTable(t, Next(t, words, dunno).event)
  {
    var (word, e) := (words[0], Next(t, words, dunno).event);
    FlagIsName(word);
  }

  lemma {:induction false} ParseFromTable(t: Table, words: seq<string>, dunno: string)
    ensures forall k :: 0 <= k < |Parse(t, words, dunno).events| ==> FromTable(t, Parse(t, words, dunno).events[k])
    decreases |words|
  {
    var step := Next(t, words, dunno);
    if step.Found? {
      NextFromTable(t, words, dunno);
      ParseFromTable(t, words[step.used..], step.event.dunno);
    }
  }

  /** A whole parse: the options found, how it ended, and the words left over. */
  datatype Trace = Trace(events: seq<Event>, ok: bool, rest: seq<string>)

  function Parse(t: Table, words: seq<string>, dunno: string): Trace
    decreases |words|
  {
    match Next(t, words, dunno)
    case Stop(used) => Trace([], true, words[used..])
    case Error(used) => Trace([], false, words[used..])
    case Found(event, used) => Then([event], Parse(t, words[used..], event.dunno))
  }

  function Then(events: seq<Event>, trace: Trace): Trace {
    trace.(events := events + trace.events)
  }

  /**
    A whole parse as the table answers it: each result is the answer to the words
    that the one before has left, and the answer to the last of them is the end
    or an error.
   */
  ghost predicate Accounts(t: Table, words: seq<string>, dunno: string, trace: Trace)
    decreases |trace.events|
  {
    if trace.events == [] then
      var used := |words| - |trace.rest|;
      used >= 0 && trace.rest == words[used..] && Answered(t, words, dunno, Seen(if trace.ok then 0 else -1, "", None, ""), used)
    else
      var e := trace.events[0];
      exists used :: 1 <= used <= |words| && Answered(t, words, dunno, Seen(e.code, e.flag, e.arg, e.dunno), used)
                     && Accounts(t, words[used..], e.dunno, trace.(events := trace.events[1..]))
  }

  lemma {:induction false} ParseAccounts(t: Table, words: seq<string>, dunno: string)
    ensures Accounts(t, words, dunno, Parse(t, words, dunno))
    decreases |words|
  {
    var (step, trace) := (Next(t, words, dunno), Parse(t, words, dunno));
    match step
    case Found(e, used) =>
      ParseAccounts(t, words[used..], e.dunno);
      StepAnswers(t, words, dunno, Seen(e.code, e.flag, e.arg, e.dunno));
      assert trace.events[1..] == Parse(t, words[used..], e.dunno).events;
    case _ =>
      StepAnswers(t, words, dunno, Seen(if trace.ok then 0 else -1, "", None, ""));
  }

  /** Parsing ends: there are no more options than words, and what is left is the end of the words. */
  lemma {:induction false} ParseEnds(t: Table, words: seq<string>, dunno: string)
    ensures Within(Parse(t, words, dunno), words)
    decreases |words|
  {
    match Next(t, words, dunno)
    case Found(event, used) =>
      ParseEnds(t, words[used..], event.dunno);
      WithinMore(event, Parse(t, words[used..], event.dunno), words, used);
    case _ =>
  }

  /** No more options than words, and the rest is the end of the words. */
  ghost predicate Within(r: Trace, words: seq<string>) {
    |r.events| + |r.rest| <= |words| && r.rest == words[|words| - |r.rest|..]
  }

  lemma WithinMore(event: Event, r: Trace, words: seq<string>, used: nat)
    requires 1 <= used <= |words| && Within(r, words[used..])
    ensures Within(Then([event], r), words)
  {
    var tail := words[used..];
    assert tail[|tail| - |r.rest|..] == words[|words| - |r.rest|..];
  }

  // ---------------------------------------------------------------- '=' and a word of its own

  /** Whether the parser comes to position `k` looking for an option. */
  predicate Reaches(t: Table, words: seq<string>, dunno: string, k: nat)
    requires k < |words|
    decreases k
  {
    var step := Next(t, words, dunno);
    k == 0 || (step.Found? && step.used <= k && Reaches(t, words[step.used..], step.event.dunno, k - step.used))
  }

  /** A word such as -x=v or --x=v, with an option x that takes a value. */
  predicate Splittable(t: Table, word: string) {
    && IsOption(word) && ValueIn(word).Some?
    && var i := Find(t.opts, NameOf(word));
       i < |t.opts| && TakesValue(t.opts[i])
  }

  function Split(word: string): seq<string>
    requires IsOption(word) && ValueIn(word).Some?
  {
    [Snipped(word), ValueIn(word).value]
  }

  function SplitAt(words: seq<string>, k: nat): seq<string>
    requires k < |words| && IsOption(words[k]) && ValueIn(words[k]).Some?
  {
    words[..k] + Split(words[k]) + words[k + 1..]
  }

  lemma EqualsInPrefix(s: string)
    ensures IndexOf(s[..IndexOf(s, '=')], '=') == IndexOf(s, '=')
  {
    var q := IndexOf(s, '=');
    assert forall i :: 0 <= i < q ==> s[..q][i] == s[i] != '=';
  }

  /** The part before '=' is an option word of the same name, without a value. */
  lemma SnippedWord(word: string)
    requires IsOption(word)
    ensures IsOption(Snipped(word)) && ValueIn(Snipped(word)) == None
    ensures NameOf(Snipped(word)) == NameOf(word) && Snipped(Snipped(word)) == Snipped(word)
    ensures Dashes(Snipped(word)) == Dashes(word)
  {
    var (d, s) := (Dashes(word), Snipped(word));
    EqualsInPrefix(word[d..]);
    assert s[d..] == word[d..][..IndexOf(word[d..], '=')];
    assert s[0] == word[0] && (d == 2 ==> s[1] == word[1]) && (d == 1 && |s| > 1 ==> s[1] == word[1]);
  }

  /** Giving the value in the next word instead of behind '=' is the same step, with one word more. */
  lemma SplitStep(t: Table, word: string, rest: seq<string>, dunno: string)
    requires t.Legal() && Splittable(t, word)
    ensures var (a, b) := (Next(t, [word] + rest, dunno), Next(t, Split(word) + rest, dunno));
            && !a.Stop? && a.used == 1
            && b == if a.Found? then Found(a.event, 2) else Error(2)
  {
    SnippedWord(word);
    var (s, name, value) := (Snipped(word), NameOf(word), ValueIn(word).value);
    assert name != "" && word != "--" && s != "--";
    assert ([word] + rest)[1..] == rest;
    var words := Split(word) + rest;
    assert words[0] == s && words[1..] == [value] + rest;
  }

  /** A call looks at no more than two words, and at the second only if it uses it. */
  lemma NextLocal(t: Table, words: seq<string>, words': seq<string>, dunno: string)
    requires |words| >= 2 && |words'| >= 2 && words[0] == words'[0]
    requires words[1] == words'[1] || Next(t, words, dunno).used <= 1
    ensures Next(t, words', dunno) == Next(t, words, dunno)
  {
    assert words[1..][0] == words[1] && words'[1..][0] == words'[1];
  }

  /** When the second word is used as a value, it is that of the event. */
  lemma NextValue(t: Table, words: seq<string>, words': seq<string>, dunno: string)
    requires |words| >= 2 && |words'| >= 2 && words[0] == words'[0] && Next(t, words, dunno).used == 2
    ensures Next(t, words', dunno).used == 2
    ensures Next(t, words', dunno).Found? ==> Next(t, words', dunno).event.arg == Some(words'[1])
  {
    assert words[1..][0] == words[1] && words'[1..][0] == words'[1];
  }

  /** A value of another option is changed by the split, and so is the parse. */
  lemma SplitValue(t: Table, words: seq<string>, dunno: string)
    requires |words| >= 2 && Splittable(t, words[1]) && Next(t, words, dunno).used == 2
    ensures Parse(t, SplitAt(words, 1), dunno) != Parse(t, words, dunno)
  {
    var words' := SplitAt(words, 1);
    assert words'[0] == words[0] && words'[1] == Snipped(words[1]);
    assert |words'[1]| < |words[1]|;
    NextValue(t, words, words, dunno);
    NextValue(t, words, words', dunno);
    var (a, b) := (Next(t, words, dunno), Next(t, words', dunno));
    var (p, p') := (Parse(t, words, dunno), Parse(t, words', dunno));
    assert a.Found? ==> p.events != [] && p.events[0] == a.event;
    assert b.Found? ==> p'.events != [] && p'.events[0] == b.event;
    assert a.Error? ==> p.events == [] && |p.rest| == |words| - 2;
    assert b.Error? ==> p'.events == [] && |p'.rest| == |words'| - 2;
  }

  /** What is true of the first word split, with any words behind it. */
  lemma SplitFirst(t: Table, words: seq<string>, dunno: string)
    requires t.Legal() && words != [] && Splittable(t, words[0])
    ensures Parse(t, SplitAt(words, 0), dunno) == Parse(t, words, dunno)
  {
    var rest := words[1..];
    var words' := SplitAt(words, 0);
    assert words == [words[0]] + rest && words' == Split(words[0]) + rest;
    SplitStep(t, words[0], rest, dunno);
    assert words'[2..] == rest;
  }

  /**
    Replacing -x=v by the words -x and v, for an option x that takes a value,
    leaves all results and the remaining words the same if and only if the
    parser takes that word for an option; it does not when the word is the value
    of another option or comes after the end of the options.
   */
  lemma {:induction false} SplitIff(t: Table, words: seq<string>, dunno: string, k: nat)
    requires t.Legal() && k < |words| && Splittable(t, words[k])
    ensures Parse(t, SplitAt(words, k), dunno) == Parse(t, words, dunno) <==> Reaches(t, words, dunno, k)
    decreases k
  {
    var (words', step) := (SplitAt(words, k), Next(t, words, dunno));
    if k == 0 {
      SplitFirst(t, words, dunno);
    } else if k == 1 && step.used == 2 {
      SplitValue(t, words, dunno);
    } else {
      NextLocal(t, words, words', dunno);
      var n := step.used;
      if step.Found? {
        SplitLater(words, k, n);
        SplitIff(t, words[n..], step.event.dunno, k - n);
        ThenInjective([step.event], Parse(t, words[n..], step.event.dunno), Parse(t, words'[n..], step.event.dunno));
      } else {
        assert |words'[n..]| == |words[n..]| + 1;
      }
    }
  }

  lemma SplitLater(words: seq<string>, k: nat, n: nat)
    requires n <= k < |words| && IsOption(words[k]) && ValueIn(words[k]).Some?
    ensures SplitAt(words, k)[n..] == SplitAt(words[n..], k - n)
  {
    assert words[n..][..k - n] == words[..k][n..];
    assert words[n..][k - n + 1..] == words[k + 1..];
    assert (words[..k] + (Split(words[k]) + words[k + 1..]))[n..] == words[..k][n..] + (Split(words[k]) + words[k + 1..]);
  }

  lemma ThenInjective(events: seq<Event>, a: Trace, b: Trace)
    ensures Then(events, a) == Then(events, b) <==> a == b
  {
    var n := |events|;
    assert a.events == (events + a.events)[n..] && b.events == (events + b.events)[n..];
  }

  // ---------------------------------------------------------------- the parser

  class Parser {
    const argv: array<string>
    const table: Table
    const unknown: Option<Opt>
    var index: nat
    var arg: Option<string>
    var flag: string
    var dunno: string

    /** The words not yet used; the array ends where the terminator stands. */
    ghost function Words(): seq<string>
      requires index <= argv.Length
      reads this, argv
    {
      argv[index..]
    }

    ghost predicate Valid()
      reads this
    {
      && 1 <= index <= argv.Length && table.Legal()
      && var u := Find(table.opts, "");
         unknown == if u < |table.opts| then Some(table.opts[u]) else None
    }

    /** Takes a vector with the program's name in front. */
    constructor (argv: array<string>, table: Table)
      requires argv.Length >= 1 && table.Legal()
      ensures Valid() && this.argv == argv && this.table == table && index == 1
    {
      this.argv, this.table, index := argv, table, 1;
      arg, flag, dunno := None, "", "";
      var u := Find(table.opts, "");
      unknown := if u < |table.opts| then Some(table.opts[u]) else None;
    }

    /** Position of '=' in a word from `from` on, or its end. */
    method FindEquals(word: string, from: nat) returns (q: nat)
      requires from <= |word|
      ensures from <= q <= |word| && q == from + IndexOf(word[from..], '=')
    {
      q := from;
      while q < |word| && word[q] != '='
        invariant from <= q <= |word| && q + IndexOf(word[q..], '=') == from + IndexOf(word[from..], '=')
      {
        assert word[q..][1..] == word[q + 1..];
        q := q + 1;
      }
    }

    /** Cuts the word in two at '=', in place; gives the name. */
    method Snip(at: nat) returns (name: string)
      requires at < argv.Length && IsOption(argv[at])
      modifies this`arg, this`flag, argv
      ensures name == NameOf(old(argv[at])) && arg == ValueIn(old(argv[at]))
      ensures argv[at] == Snipped(old(argv[at])) && flag == FlagOf(old(argv[at]))
      ensures forall i :: 0 <= i < argv.Length && i != at ==> argv[i] == old(argv[i])
    {
      var word := argv[at];
      var p := 1;
      if p < |word| && word[p] == '-' {
        p := p + 1;
      }
      var q := FindEquals(word, p);
      if q < |word| {
        arg := Some(word[q + 1..]);
        argv[at] := word[..q];
      } else {
        arg := None;
        assert word[..q] == word;
      }
      flag := argv[at][p - 1..];
      name := argv[at][p..];
    }

    /** Searches the table in order. */
    method Search(name: string) returns (i: nat)
      ensures i == Find(table.opts, name)
    {
      i := 0;
      while i < |table.opts| && table.opts[i].name != name
        invariant 0 <= i <= |table.opts| && forall k :: 0 <= k < i ==> table.opts[k].name != name
      {
        i := i + 1;
      }
    }

    /** Finds the option by name and its value, which may be the next word. */
    method Dispatch(name: string) returns (code: int)
      requires Valid()
      modifies this`index, this`arg, this`dunno
      ensures Valid() && old(index) <= index
      ensures var step := Take(table, name, flag, old(arg), old(Words()), old(dunno));
              index == old(index) + step.used - 1 && Shows(code, step)
    {
      assert index < argv.Length ==> argv[index] == Words()[0];
      var i := Search(name);
      if i == |table.opts| {
        if unknown.Some? {
          dunno := name;
          return unknown.value.retval;
        }
        return -1;
      }
      var o := table.opts[i];
      if !TakesValue(o) {
        return if arg.Some? then -1 else o.retval;
      }
      if arg.None? {
        if index == argv.Length {
          return -1;
        }
        arg := Some(argv[index]);
        index := index + 1;
      }
      code := if ValueOk(table, o, arg.value) then o.retval else -1;
    }

    /**
      Parses the next option: its code, 0 at the end, or -1 on an error. What is
      seen is the answer of the table to the words that are left.
     */
    method OptNext() returns (code: int)
      requires Valid()
      modifies this, argv
      ensures Answered(table, old(Words()), old(dunno), Seen(code, flag, arg, dunno), index - old(index))
      ensures Valid() && Words() == old(Words())[Next(table, old(Words()), old(dunno)).used..]
      ensures Shows(code, Next(table, old(Words()), old(dunno)))
      ensures forall i :: 0 <= i < argv.Length && i != old(index) ==> argv[i] == old(argv[i])
    {
      ghost var (words, before) := (Words(), dunno);
      code := Advance();
      assert index - old(index) == |words| - |Words()|;
      StepAnswers(table, words, before, Seen(code, flag, arg, dunno));
    }

    method Advance() returns (code: int)
      requires Valid()
      modifies this, argv
      ensures Valid() && Words() == old(Words())[Next(table, old(Words()), old(dunno)).used..]
      ensures Shows(code, Next(table, old(Words()), old(dunno)))
      ensures forall i :: 0 <= i < argv.Length && i != old(index) ==> argv[i] == old(argv[i])
    {
      ghost var words := Words();
      arg := None;
      if index == argv.Length || !IsOption(argv[index]) {
        return 0;
      }
      index := index + 1;
      if argv[index - 1] == "--" {
        return 0;
      }
      assert Words() == words[1..];
      code := TakeOption(words[0], words[1..]);
      RestOfWords(words, TakeWord(table, words[0], words[1..], old(dunno)).used);
    }

    /** Takes the option in the word just passed. */
    method TakeOption(ghost word: string, ghost rest: seq<string>) returns (code: int)
      requires Valid() && index >= 2 && argv[index - 1] == word && IsOption(word) && Words() == rest
      modifies this, argv
      ensures Valid() && Words() == rest[TakeWord(table, word, rest, old(dunno)).used - 1..]
      ensures Shows(code, TakeWord(table, word, rest, old(dunno)))
      ensures forall i :: 0 <= i < argv.Length && i != old(index) - 1 ==> argv[i] == old(argv[i])
    {
      var name := Snip(index - 1);
      assert Words() == rest;
      ghost var at := index;
      code := Dispatch(name);
      assert Words() == rest[index - at..];
    }

    /** The state of the parser shows the outcome of a call. */
    ghost predicate Shows(code: int, step: Step)
      reads this
    {
      match step
      case Stop(_) => code == 0
      case Error(_) => code == -1
      case Found(event, _) => code > 0 && event == Event(code, flag, arg, dunno)
    }

    /** How many words are left over. */
    method NumRest() returns (n: nat)
      requires Valid()
      ensures n == |Words()|
    {
      n := 0;
      while index + n < argv.Length
        invariant index + n <= argv.Length
      {
        n := n + 1;
      }
    }
  }

  lemma RestOfWords(words: seq<string>, used: nat)
    requires 1 <= used <= |words|
    ensures words[1..][used - 1..] == words[used..]
  {
  }

  /** Parses all options, as every command does: until there are none left or one is wrong. */
  method ParseAll(p: Parser) returns (events: seq<Event>, ok: bool)
    requires p.Valid()
    modifies p, p.argv
    ensures p.Valid() && Parse(p.table, old(p.Words()), old(p.dunno)) == Trace(events, ok, p.Words())
    ensures |events| <= old(|p.Words()|)
    ensures forall k :: 0 <= k < |events| ==> FromTable(p.table, events[k])
    ensures Accounts(p.table, old(p.Words()), old(p.dunno), Trace(events, ok, p.Words()))
  {
    events := [];
    ghost var all := Parse(p.table, p.Words(), p.dunno);
    ParseEnds(p.table, p.Words(), p.dunno);
    ParseFromTable(p.table, p.Words(), p.dunno);
    ParseAccounts(p.table, p.Words(), p.dunno);
    var code := 1;
    while code > 0
      invariant p.Valid()
      invariant all == if code > 0 then Then(events, Parse(p.table, p.Words(), p.dunno)) else Trace(events, code == 0, p.Words())
      decreases if code > 0 then |p.Words()| + 1 else 0
    {
      ghost var (left, dunno) := (p.Words(), p.dunno);
      code := p.OptNext();
      if code > 0 {
        var event := Event(code, p.flag, p.arg, p.dunno);
        ThenThen(events, [event], Parse(p.table, p.Words(), p.dunno));
        events := events + [event];
      } else {
        assert events + [] == events;
      }
    }
    ok := code == 0;
  }

  lemma ThenThen(a: seq<Event>, b: seq<Event>, trace: Trace)
    ensures Then(a, Then(b, trace)) == Then(a + b, trace)
  {
    assert a + (b + trace.events) == (a + b) + trace.events;
  }
}
