/**
  Distinguished names written as /type0=value0/type1=value1+type2=value2, with
  '\' in front of characters to be taken literally.
 */
module NameParser {

  import opened Options
  import opened Texts
  import opened SubjectPolicy

  /** The known attribute types, and the encoding of values, which may refuse one. */
  datatype Objects = Objects(nid: string -> Nid, encode: (Nid, string) -> Option<Value>)

  /** A type and a value; `joined` when '+' put it in the component of the one before. */
  datatype Item = Item(kind: string, value: string, joined: bool)

  // ---------------------------------------------------------------- the text

  /** A value, what follows its separator, and whether that was '+'. */
  datatype Scanned = Scanned(value: string, rest: string, plus: bool)

  /** The value a text starts with, up to a separator or the end; none if the text ends in '\'. */
  function ValueOf(s: string, canmulti: bool): (r: Option<Scanned>)
    ensures r.Some? ==> |r.value.rest| <= |s| && (s != [] ==> |r.value.rest| < |s|)
  {
    if s == [] then Some(Scanned([], [], false))
    else if s[0] == '/' then Some(Scanned([], s[1..], false))
    else if canmulti && s[0] == '+' then Some(Scanned([], s[1..], true))
    else if s[0] != '\\' then Before(s[0], ValueOf(s[1..], canmulti))
    else if |s| == 1 then None
    else Before(s[1], ValueOf(s[2..], canmulti))
  }

  function Before(c: char, r: Option<Scanned>): Option<Scanned> {
    if r.None? then None else Some(r.value.(value := [c] + r.value.value))
  }

  /** An item, what follows its separator, and whether that was '+'. */
  datatype Taken = Taken(item: Item, rest: string, plus: bool)

  /** The item a text starts with; none if the type has no '=' or the text ends in '\'. */
  function FirstOf(s: string, joined: bool, canmulti: bool): (r: Option<Taken>)
    ensures r.Some? ==> |r.value.rest| < |s|
  {
    var q := IndexOf(s, '=');
    if q == |s| then None
    else
      var v := ValueOf(s[q + 1..], canmulti);
      if v.None? then None else Some(Taken(Item(s[..q], v.value.value, joined), v.value.rest, v.value.plus))
  }

  /** The items of a text, in order. */
  function ItemsOf(s: string, joined: bool, canmulti: bool): Option<seq<Item>>
    decreases |s|
  {
    if s == [] then Some([])
    else
      var first := FirstOf(s, joined, canmulti);
      if first.None? then None else After([first.value.item], ItemsOf(first.value.rest, first.value.plus, canmulti))
  }

  function After(done: seq<Item>, rest: Option<seq<Item>>): Option<seq<Item>> {
    if rest.None? then None else Some(done + rest.value)
  }

  lemma AfterAfter(a: seq<Item>, b: seq<Item>, rest: Option<seq<Item>>)
    ensures After(a, After(b, rest)) == After(a + b, rest)
  {
    if rest.Some? {
      assert a + (b + rest.value) == (a + b) + rest.value;
    }
  }

  // ---------------------------------------------------------------- the name

  /** Items of unknown type or without a value are left out of the name. */
  predicate Skipped(o: Objects, item: Item) {
    o.nid(item.kind) == UNDEFINED || item.value == []
  }

  /** Appends an entry: to the last component, or as one of its own. */
  function AddLast(name: Name, oid: Nid, value: Value, multi: bool): Name {
    var group := if name == [] then 0 else name[|name| - 1].group + if multi then 0 else 1;
    name + [Entry(oid, value, group)]
  }

  function AddItem(o: Objects, name: Name, item: Item): Option<Name> {
    if Skipped(o, item) then Some(name)
    else
      var value := o.encode(o.nid(item.kind), item.value);
      if value.None? then None else Some(AddLast(name, o.nid(item.kind), value.value, item.joined))
  }

  /** The name made of items, in order; none if a value is refused. */
  function Build(o: Objects, items: seq<Item>): Option<Name> {
    if items == [] then Some([])
    else
      var before := Build(o, items[..|items| - 1]);
      if before.None? then None else AddItem(o, before.value, items[|items| - 1])
  }

  /** What a text denotes. */
  function Denotes(o: Objects, text: string, canmulti: bool): Option<Name> {
    if text == [] || text[0] != '/' then None
    else
      var items := ItemsOf(text[1..], false, canmulti);
      if items.None? then None else Build(o, items.value)
  }

  lemma {:induction false} BuildPrefix(o: Objects, items: seq<Item>, n: nat)
    requires n <= |items| && Build(o, items).Some?
    ensures Build(o, items[..n]).Some?
  {
    if n < |items| {
      BuildPrefix(o, items[..|items| - 1], n);
      assert items[..|items| - 1][..n] == items[..n];
    } else {
      assert items[..n] == items;
    }
  }

  // ---------------------------------------------------------------- the parser

  /** Copies the type into the work buffer. */
  method CollectType(s: string, p: nat, work: array<char>) returns (q: nat)
    requires p <= |s| && work.Length == |s| + 1
    modifies work
    ensures p <= q <= |s| && q == p + IndexOf(s[p..], '=') && forall i :: 0 <= i < q - p ==> work[i] == s[p + i]
  {
    q := p;
    while q < |s| && s[q] != '='
      invariant p <= q <= |s| && q + IndexOf(s[q..], '=') == p + IndexOf(s[p..], '=')
      invariant forall i :: 0 <= i < q - p ==> work[i] == s[p + i]
    {
      assert s[q..][1..] == s[q + 1..];
      work[q - p] := s[q];
      q := q + 1;
    }
  }

  function Prefixed(v: string, r: Option<Scanned>): Option<Scanned> {
    if r.None? then None else Some(r.value.(value := v + r.value.value))
  }

  lemma PrefixedNothing(r: Option<Scanned>)
    ensures Prefixed([], r) == r
  {
    if r.Some? {
      assert [] + r.value.value == r.value.value;
    }
  }

  lemma PrefixedBefore(v: string, c: char, r: Option<Scanned>)
    ensures Prefixed(v, Before(c, r)) == Prefixed(v + [c], r)
  {
    if r.Some? {
      assert v + ([c] + r.value.value) == (v + [c]) + r.value.value;
    }
  }

  lemma ValueStep(s: string, from: nat, cp: nat, canmulti: bool)
    requires from <= cp < |s| && s[from] != '/' && !(canmulti && s[from] == '+')
    requires cp == if s[from] == '\\' then from + 1 else from
    ensures ValueOf(s[from..], canmulti) == Before(s[cp], ValueOf(s[cp + 1..], canmulti))
  {
    assert s[from..][cp + 1 - from..] == s[cp + 1..];
  }

  lemma ValueBroken(s: string, from: nat, canmulti: bool)
    requires from + 1 == |s| && s[from] == '\\'
    ensures ValueOf(s[from..], canmulti) == None
  {
  }

  lemma ValueEnds(s: string, cp: nat, plus: bool, canmulti: bool)
    requires cp <= |s| && (cp == |s| ==> !plus)
    requires cp < |s| ==> if plus then canmulti && s[cp] == '+' else s[cp] == '/'
    ensures ValueOf(s[cp..], canmulti) == Some(Scanned([], s[if cp < |s| then cp + 1 else cp..], plus))
  {
    if cp < |s| {
      assert s[cp..][1..] == s[cp + 1..];
    }
  }

  /** Copies a value into the work buffer, without its escapes, up to the separator or the end. */
  method CopyValue(s: string, start: nat, work: array<char>, at: nat, canmulti: bool)
    returns (ok: bool, cp: nat, bp: nat, plus: bool)
    requires at <= start <= |s| && work.Length == |s| + 1
    modifies work
    ensures forall i :: 0 <= i < at ==> work[i] == old(work[i])
    ensures !ok ==> ValueOf(s[start..], canmulti) == None
    ensures ok ==> at <= bp <= |s| && start <= cp <= |s| && (cp == |s| ==> !plus)
    ensures ok && cp < |s| ==> if plus then canmulti && s[cp] == '+' else s[cp] == '/'
    ensures ok ==> ValueOf(s[start..], canmulti) == Prefixed(work[at..bp], ValueOf(s[cp..], canmulti))
  {
    ghost var (whole, v: string) := (ValueOf(s[start..], canmulti), []);
    ok, cp, bp, plus := true, start, at, false;
    PrefixedNothing(whole);
    while cp < |s| && s[cp] != '/'
      invariant start <= cp <= |s| && at <= bp && bp - at <= cp - start && !plus
      invariant forall i :: 0 <= i < at ==> work[i] == old(work[i])
      invariant |v| == bp - at && forall i :: 0 <= i < |v| ==> work[at + i] == v[i]
      invariant whole == Prefixed(v, ValueOf(s[cp..], canmulti))
      decreases |s| - cp
    {
      ghost var from := cp;
      if canmulti && s[cp] == '+' {
        plus := true;
        break;
      }
      if s[cp] == '\\' {
        cp := cp + 1;
        if cp == |s| {
          ValueBroken(s, from, canmulti);
          ok := false;
          return;
        }
      }
      ValueStep(s, from, cp, canmulti);
      PrefixedBefore(v, s[cp], ValueOf(s[cp + 1..], canmulti));
      PutChar(work, at, bp, s[cp], v);
      v := v + [s[cp]];
      bp, cp := bp + 1, cp + 1;
    }
    assert work[at..bp] == v;
  }

  /** Puts one character behind what has been copied. */
  method PutChar(work: array<char>, at: nat, bp: nat, c: char, ghost v: string)
    requires at <= bp < work.Length && |v| == bp - at && forall i :: 0 <= i < |v| ==> work[at + i] == v[i]
    modifies work
    ensures forall i :: 0 <= i < at ==> work[i] == old(work[i])
    ensures forall i :: 0 <= i < |v| + 1 ==> work[at + i] == (v + [c])[i]
  {
    work[bp] := c;
  }

  /** Collects a value and steps over the separator. */
  method CollectValue(s: string, start: nat, work: array<char>, at: nat, canmulti: bool)
    returns (ok: bool, cp: nat, bp: nat, plus: bool)
    requires at <= start <= |s| && work.Length == |s| + 1
    modifies work
    ensures forall i :: 0 <= i < at ==> work[i] == old(work[i])
    ensures ok == ValueOf(s[start..], canmulti).Some?
    ensures ok ==> at <= bp <= |s| && start <= cp <= |s|
    ensures ok ==> ValueOf(s[start..], canmulti) == Some(Scanned(work[at..bp], s[cp..], plus))
  {
    ok, cp, bp, plus := CopyValue(s, start, work, at, canmulti);
    if ok {
      ValueEnds(s, cp, plus, canmulti);
      assert work[at..bp] + [] == work[at..bp];
      if cp < |s| {
        cp := cp + 1;
      }
    }
  }

  lemma FirstStep(s: string, cp: nat, q: nat, joined: bool, canmulti: bool)
    requires cp <= q < |s| && q == cp + IndexOf(s[cp..], '=')
    ensures FirstOf(s[cp..], joined, canmulti) ==
            var v := ValueOf(s[q + 1..], canmulti);
            if v.None? then None else Some(Taken(Item(s[cp..q], v.value.value, joined), v.value.rest, v.value.plus))
  {
    assert s[cp..][q - cp + 1..] == s[q + 1..] && s[cp..][..q - cp] == s[cp..q];
  }

  /** Collects a type and a value in the work buffer, one behind the other, each with its terminator. */
  method CollectParts(s: string, cp: nat, work: array<char>, canmulti: bool)
    returns (q: nat, ok: bool, typestr: string, valstr: string, next: nat, plus: bool)
    requires cp < |s| && work.Length == |s| + 1
    modifies work
    ensures cp <= q <= |s| && q == cp + IndexOf(s[cp..], '=')
    ensures !ok ==> q == |s| || ValueOf(s[q + 1..], canmulti) == None
    ensures ok ==> q < |s| && typestr == s[cp..q] && cp < next <= |s|
    ensures ok ==> ValueOf(s[q + 1..], canmulti) == Some(Scanned(valstr, s[next..], plus))
  {
    ok, typestr, valstr, next, plus := false, [], [], 0, false;
    q := CollectType(s, cp, work);
    if q == |s| {
      return;
    }
    var t := q - cp;
    work[t] := '\0';
    var bp;
    ok, next, bp, plus := CollectValue(s, q + 1, work, t + 1, canmulti);
    if ok {
      typestr, valstr := work[..t], work[t + 1..bp];
      assert typestr == s[cp..q];
      work[bp] := '\0';
    }
  }

  /** Collects one item. */
  method CollectItem(s: string, cp: nat, work: array<char>, canmulti: bool, ghost joined: bool)
    returns (ok: bool, typestr: string, valstr: string, next: nat, plus: bool)
    requires cp < |s| && work.Length == |s| + 1
    modifies work
    ensures !ok ==> FirstOf(s[cp..], joined, canmulti) == None
    ensures ok ==> cp < next <= |s|
    ensures ok ==> FirstOf(s[cp..], joined, canmulti) == Some(Taken(Item(typestr, valstr, joined), s[next..], plus))
  {
    var q;
    q, ok, typestr, valstr, next, plus := CollectParts(s, cp, work, canmulti);
    if q < |s| {
      FirstStep(s, cp, q, joined, canmulti);
    }
  }

  /** Parses a name; the work buffer has the size of the text behind the first '/'. */
  method ParseName(o: Objects, text: string, canmulti: bool) returns (r: Option<Name>)
    requires forall i :: 0 <= i < |text| ==> text[i] != '\0'
    ensures r == Denotes(o, text, canmulti)
  {
    if text == [] || text[0] != '/' {
      return None;
    }
    var s := text[1..];
    var work := new char[|s| + 1];
    var name: Name := [];
    var cp, nextismulti := 0, false;
    ghost var done: seq<Item> := [];
    ghost var all := ItemsOf(s, false, canmulti);
    assert s[0..] == s && (all.Some? ==> [] + all.value == all.value);
    while cp < |s|
      invariant 0 <= cp <= |s| && Build(o, done) == Some(name)
      invariant all == After(done, ItemsOf(s[cp..], nextismulti, canmulti))
      decreases |s| - cp
    {
      var ismulti := nextismulti;
      var ok, typestr, valstr, next, plus := CollectItem(s, cp, work, canmulti, ismulti);
      if !ok {
        return None;
      }
      ghost var item := Item(typestr, valstr, ismulti);
      AfterAfter(done, [item], ItemsOf(s[next..], plus, canmulti));
      BuildMore(o, done, item);
      done := done + [item];
      cp, nextismulti := next, plus;
      if o.nid(typestr) == UNDEFINED || valstr == [] {
        continue;
      }
      var v := o.encode(o.nid(typestr), valstr);
      if v.None? {
        BuildFails(o, done, all);
        return None;
      }
      name := AddLast(name, o.nid(typestr), v.value, ismulti);
    }
    assert done + [] == done;
    r := Some(name);
  }

  lemma BuildMore(o: Objects, items: seq<Item>, item: Item)
    requires Build(o, items).Some?
    ensures Build(o, items + [item]) == AddItem(o, Build(o, items).value, item)
  {
    assert (items + [item])[..|items|] == items;
  }

  /** A refused value spoils the whole name. */
  lemma BuildFails(o: Objects, done: seq<Item>, all: Option<seq<Item>>)
    requires Build(o, done).None? && (all.None? || done <= all.value)
    ensures all.None? || Build(o, all.value).None?
  {
    if all.Some? && Build(o, all.value).Some? {
      BuildPrefix(o, all.value, |done|);
    }
  }

  // ---------------------------------------------------------------- printing

  function EscapeChar(c: char): string {
    if c == '/' || c == '+' || c == '\\' then ['\\', c] else [c]
  }

  function EscapeValue(v: string): string {
    if v == [] then [] else EscapeChar(v[0]) + EscapeValue(v[1..])
  }

  function PrintItem(item: Item): string {
    item.kind + "=" + EscapeValue(item.value)
  }

  function PrintItems(items: seq<Item>): string
    decreases |items|, 0
  {
    if items == [] then []
    else PrintItem(items[0]) + PrintTail(items[1..])
  }

  /** Further items, each behind its separator. */
  function PrintTail(items: seq<Item>): string
    decreases |items|, 1
  {
    if items == [] then [] else [if items[0].joined then '+' else '/'] + PrintItems(items)
  }

  function Print(items: seq<Item>): string {
    "/" + PrintItems(items)
  }

  /** Types can hold any character but '='; the first item joins nothing. */
  ghost predicate Printable(items: seq<Item>) {
    (items != [] ==> !items[0].joined) && PrintableKinds(items)
  }

  ghost predicate PrintableKinds(items: seq<Item>) {
    forall i :: 0 <= i < |items| ==> '=' !in items[i].kind
  }

  lemma {:induction false} EqualsFound(kind: string, rest: string)
    requires '=' !in kind
    ensures IndexOf(kind + "=" + rest, '=') == |kind|
  {
    var s := kind + "=" + rest;
    if kind != [] {
      assert s[1..] == kind[1..] + "=" + rest;
      EqualsFound(kind[1..], rest);
    }
  }

  /** A tail of printed text: nothing, or a separator and more. */
  ghost predicate IsTail(tail: string) {
    tail == [] || tail[0] == '/' || tail[0] == '+'
  }

  function TailScanned(v: string, tail: string): Scanned {
    if tail == [] then Scanned(v, [], false) else Scanned(v, tail[1..], tail[0] == '+')
  }

  /** A value printed in front of a separator, or of the end, is read back. */
  lemma {:induction false} ValueFound(v: string, tail: string)
    requires IsTail(tail)
    ensures ValueOf(EscapeValue(v) + tail, true) == Some(TailScanned(v, tail))
  {
    if v == [] {
      assert EscapeValue(v) + tail == tail;
    } else {
      var rest := EscapeValue(v[1..]) + tail;
      ValueFound(v[1..], tail);
      Associate(EscapeChar(v[0]), EscapeValue(v[1..]), tail);
      EscapedFound(v[0], rest);
      assert [v[0]] + v[1..] == v;
    }
  }

  lemma EscapedFound(c: char, rest: string)
    ensures ValueOf(EscapeChar(c) + rest, true) == Before(c, ValueOf(rest, true))
  {
    assert (EscapeChar(c) + rest)[|EscapeChar(c)|..] == rest;
  }

  /** The printed items are read back, with their grouping. */
  lemma {:induction false} ItemsFound(items: seq<Item>)
    requires items != [] && PrintableKinds(items)
    ensures ItemsOf(PrintItems(items), items[0].joined, true) == Some(items)
  {
    var (item, rest) := (items[0], items[1..]);
    var tail := PrintTail(rest);
    ItemFound(item, tail);
    if rest != [] {
      ItemsFound(rest);
      assert tail[1..] == PrintItems(rest);
    }
    assert [item] + rest == items;
  }

  lemma ItemFound(item: Item, tail: string)
    requires '=' !in item.kind && IsTail(tail)
    ensures var more := TailScanned(item.value, tail);
            FirstOf(PrintItem(item) + tail, item.joined, true) == Some(Taken(item, more.rest, more.plus))
  {
    var (s, rest) := (PrintItem(item) + tail, EscapeValue(item.value) + tail);
    assert s == item.kind + "=" + rest;
    EqualsFound(item.kind, rest);
    ValueFound(item.value, tail);
    assert s[..|item.kind|] == item.kind && s[|item.kind| + 1..] == rest;
  }

  /** Position of the component of an item: how many items up to it, after the first, begin a component. */
  function ComponentOf(items: seq<Item>, i: nat): nat
    requires i < |items|
  {
    if i == 0 then 0 else ComponentOf(items, i - 1) + if items[i].joined then 0 else 1
  }

  lemma {:induction false} ComponentOfPrefix(items: seq<Item>, n: nat, i: nat)
    requires i < n <= |items|
    ensures ComponentOf(items[..n], i) == ComponentOf(items, i)
  {
    if i > 0 {
      ComponentOfPrefix(items, n, i - 1);
    }
  }

  predicate Encodable(o: Objects, item: Item) {
    !Skipped(o, item) && o.encode(o.nid(item.kind), item.value).Some?
  }

  ghost predicate AllEncodable(o: Objects, items: seq<Item>) {
    forall i :: 0 <= i < |items| ==> Encodable(o, items[i])
  }

  ghost predicate Matches(o: Objects, items: seq<Item>, name: Name)
    requires AllEncodable(o, items)
  {
    && |name| == |items|
    && forall i :: 0 <= i < |items| ==> name[i] == EntryOf(o, items[i], ComponentOf(items, i))
  }

  function EntryOf(o: Objects, item: Item, group: int): Entry
    requires Encodable(o, item)
  {
    Entry(o.nid(item.kind), o.encode(o.nid(item.kind), item.value).value, group)
  }

  lemma {:induction false} BuildMatches(o: Objects, items: seq<Item>)
    requires AllEncodable(o, items)
    ensures Build(o, items).Some? && Matches(o, items, Build(o, items).value)
  {
    if items != [] {
      var n := |items| - 1;
      BuildMatches(o, items[..n]);
      forall i | 0 <= i < n
        ensures ComponentOf(items[..n], i) == ComponentOf(items, i)
      {
        ComponentOfPrefix(items, n, i);
      }
      assert Encodable(o, items[n]);
    }
  }

  /**
    Round trip: whatever items are printed, parsing builds the name of just
    these items; if all types are known and all values acceptable and not empty,
    that is one entry for each, in the component it was printed in.
   */
  lemma RoundTrip(o: Objects, items: seq<Item>)
    requires Printable(items)
    ensures Denotes(o, Print(items), true) == Build(o, items)
    ensures AllEncodable(o, items) ==>
              Denotes(o, Print(items), true).Some? && Matches(o, items, Denotes(o, Print(items), true).value)
  {
    var s := Print(items)[1..];
    assert s == PrintItems(items);
    if items != [] {
      ItemsFound(items);
    }
    if AllEncodable(o, items) {
      BuildMatches(o, items);
    }
  }

  // ---------------------------------------------------------------- components and skipped items

  /** Components as written: an item after '+' belongs with the one before. */
  function Components(items: seq<Item>): (r: seq<seq<Item>>)
    ensures r == [] <==> items == []
  {
    if items == [] then []
    else
      var (before, last) := (Components(items[..|items| - 1]), items[|items| - 1]);
      if last.joined && before != [] then Extended(before, last) else before + [[last]]
  }

  function Extended(groups: seq<seq<Item>>, item: Item): seq<seq<Item>>
    requires groups != []
  {
    groups[..|groups| - 1] + [groups[|groups| - 1] + [item]]
  }

  function Kept(o: Objects, items: seq<Item>): seq<Item> {
    if items == [] then []
    else
      var (before, last) := (Kept(o, items[..|items| - 1]), items[|items| - 1]);
      if Skipped(o, last) then before else before + [last]
  }

  /** The items kept are those of a known type with a value. */
  lemma {:induction false} KeptAre(o: Objects, items: seq<Item>, item: Item)
    ensures item in Kept(o, items) <==> item in items && o.nid(item.kind) != UNDEFINED && item.value != []
  {
    if items != [] {
      var (before, last) := (items[..|items| - 1], items[|items| - 1]);
      KeptAre(o, before, item);
      assert items == before + [last];
    }
  }

  /** The other items change nothing: the name is that of the items kept, one entry for each. */
  lemma {:induction false} SkippedLeftOut(o: Objects, items: seq<Item>)
    ensures Build(o, items) == Build(o, Kept(o, items))
    ensures Build(o, items).Some? ==> |Build(o, items).value| == |Kept(o, items)|
  {
    if items != [] {
      var (before, last) := (items[..|items| - 1], items[|items| - 1]);
      SkippedLeftOut(o, before);
      if !Skipped(o, last) {
        KeepsLast(o, Kept(o, before), last);
      }
    }
  }

  lemma KeepsLast(o: Objects, kept: seq<Item>, last: Item)
    ensures Build(o, kept + [last]) == if Build(o, kept).None? then None else AddItem(o, Build(o, kept).value, last)
  {
    assert (kept + [last])[..|kept|] == kept;
  }

  /** Components without their skipped items, and without those that have no other. */
  function Pruned(o: Objects, groups: seq<seq<Item>>): seq<seq<Item>> {
    if groups == [] then []
    else
      var (before, last) := (Pruned(o, groups[..|groups| - 1]), Kept(o, groups[|groups| - 1]));
      if last == [] then before else before + [last]
  }

  /** Components of the name that is built. */
  function Built(o: Objects, items: seq<Item>): seq<seq<Item>> {
    if items == [] then []
    else
      var (before, last) := (Built(o, items[..|items| - 1]), items[|items| - 1]);
      if Skipped(o, last) then before
      else if last.joined && before != [] then Extended(before, last)
      else before + [[last]]
  }

  /** The last item comes after '+', but all that its component has before it was skipped, and an earlier component was not. */
  ghost predicate Misplaced(o: Objects, items: seq<Item>)
    requires items != []
  {
    var (before, last) := (items[..|items| - 1], items[|items| - 1]);
    && !Skipped(o, last) && last.joined && before != [] && Kept(o, before) != []
    && Kept(o, Components(before)[|Components(before)| - 1]) == []
  }

  ghost function MisplacedCount(o: Objects, items: seq<Item>): nat {
    if items == [] then 0
    else MisplacedCount(o, items[..|items| - 1]) + if Misplaced(o, items) then 1 else 0
  }

  lemma {:induction false} PrunedEmpty(o: Objects, items: seq<Item>)
    ensures Pruned(o, Components(items)) == [] <==> Kept(o, items) == []
    ensures Built(o, items) == [] <==> Kept(o, items) == []
  {
    if items != [] {
      PrunedEmpty(o, items[..|items| - 1]);
      PrunedStep(o, items);
    }
  }

  lemma KeptOne(o: Objects, items: seq<Item>, item: Item)
    ensures Kept(o, items + [item]) == if Skipped(o, item) then Kept(o, items) else Kept(o, items) + [item]
  {
    assert (items + [item])[..|items|] == items;
  }

  lemma PrunedOne(o: Objects, groups: seq<seq<Item>>, group: seq<Item>)
    ensures Pruned(o, groups + [group]) == if Kept(o, group) == [] then Pruned(o, groups) else Pruned(o, groups) + [Kept(o, group)]
  {
    assert (groups + [group])[..|groups|] == groups;
  }

  /** What one more item does to the pruned components. */
  lemma PrunedStep(o: Objects, items: seq<Item>)
    requires items != []
    ensures var (before, last) := (Components(items[..|items| - 1]), items[|items| - 1]);
            Pruned(o, Components(items)) ==
            if Skipped(o, last) then Pruned(o, before)
            else if last.joined && before != [] && Kept(o, before[|before| - 1]) != [] then Extended(Pruned(o, before), last)
            else Pruned(o, before) + [[last]]
  {
    var (before, last) := (Components(items[..|items| - 1]), items[|items| - 1]);
    KeptOne(o, [], last);
    assert [] + [last] == [last];
    if last.joined && before != [] {
      var m := |before| - 1;
      KeptOne(o, before[m], last);
      PrunedOne(o, before[..m], before[m] + [last]);
      PrunedOne(o, before[..m], before[m]);
      assert before[..m] + [before[m]] == before;
    } else {
      PrunedOne(o, before, [last]);
    }
  }

  /**
    The name has the components that were written, less the skipped items,
    exactly when no item is misplaced. Each misplaced item is put in an earlier
    component instead of one of its own.
   */
  lemma {:induction false} ComponentsKeptIff(o: Objects, items: seq<Item>)
    ensures |Built(o, items)| + MisplacedCount(o, items) == |Pruned(o, Components(items))|
    ensures Built(o, items) == Pruned(o, Components(items)) <==> MisplacedCount(o, items) == 0
  {
    if items != [] {
      var before := items[..|items| - 1];
      ComponentsKeptIff(o, before);
      PrunedStep(o, items);
      PrunedEmpty(o, before);
    }
  }

  function EntryAt(o: Objects, item: Item, group: nat): Entry {
    var value := o.encode(o.nid(item.kind), item.value);
    Entry(o.nid(item.kind), if value.Some? then value.value else Value(0, []), group)
  }

  function EntriesAt(o: Objects, items: seq<Item>, group: nat): Name {
    if items == [] then [] else EntriesAt(o, items[..|items| - 1], group) + [EntryAt(o, items[|items| - 1], group)]
  }

  /** The entries of components, numbered in order. */
  function NumberedEntries(o: Objects, groups: seq<seq<Item>>): Name {
    if groups == [] then []
    else
      var m := |groups| - 1;
      NumberedEntries(o, groups[..m]) + EntriesAt(o, groups[m], m)
  }

  lemma NumberedNew(o: Objects, groups: seq<seq<Item>>, item: Item)
    ensures NumberedEntries(o, groups + [[item]]) == NumberedEntries(o, groups) + [EntryAt(o, item, |groups|)]
  {
    assert (groups + [[item]])[..|groups|] == groups;
    assert EntriesAt(o, [item][..0], |groups|) == [];
    assert EntriesAt(o, [item], |groups|) == [EntryAt(o, item, |groups|)];
  }

  lemma NumberedMore(o: Objects, groups: seq<seq<Item>>, item: Item)
    requires groups != []
    ensures NumberedEntries(o, Extended(groups, item)) == NumberedEntries(o, groups) + [EntryAt(o, item, |groups| - 1)]
  {
    var m := |groups| - 1;
    var (first, last) := (groups[..m], groups[m]);
    assert Extended(groups, item)[..m] == first;
    assert (last + [item])[..|last|] == last;
    var (a, b, e) := (NumberedEntries(o, first), EntriesAt(o, last, m), EntryAt(o, item, m));
    assert EntriesAt(o, last + [item], m) == b + [e];
    Associate(a, b, [e]);
    assert groups == first + [last];
  }

  ghost predicate NumberedBy(o: Objects, name: Name, groups: seq<seq<Item>>) {
    && name == NumberedEntries(o, groups) && (name == [] <==> groups == [])
    && (name != [] ==> name[|name| - 1].group == |groups| - 1)
  }

  /** The group numbers of the name are the components that were built. */
  lemma {:induction false} BuildIsNumbered(o: Objects, items: seq<Item>)
    requires Build(o, items).Some?
    ensures NumberedBy(o, Build(o, items).value, Built(o, items))
  {
    if items != [] {
      var (before, last) := (items[..|items| - 1], items[|items| - 1]);
      BuildIsNumbered(o, before);
      NumberedNew(o, Built(o, before), last);
      if Built(o, before) != [] {
        NumberedMore(o, Built(o, before), last);
      }
    }
  }

  lemma BuiltExample(o: Objects, a: Item, b: Item, c: Item)
    requires !Skipped(o, a) && Skipped(o, b) && !Skipped(o, c) && c.joined
    ensures Built(o, [a, b, c]) == [[a, c]]
  {
    assert [a, b, c][..2] == [a, b] && [a, b][..1] == [a] && [a][..0] == [];
    assert Built(o, [a]) == [[a]];
    assert Built(o, [a, b]) == [[a]];
    assert [[a]][..0] == [] && [a] + [c] == [a, c];
    assert Extended([[a]], c) == [[a, c]];
  }

  /**
    An unknown type in front of '+' puts the next item in the component before
    it: /CN=a/X=b+O=c gives the one component CN=a+O=c.
   */
  lemma SkippedTypeJoins(o: Objects, a: Item, b: Item, c: Item)
    requires !Skipped(o, a) && Skipped(o, b) && !b.joined && !Skipped(o, c) && c.joined
    ensures Built(o, [a, b, c]) == [[a, c]] && Pruned(o, Components([a, b, c])) == [[a], [c]]
  {
    assert [a, b, c][..2] == [a, b] && [a, b][..1] == [a] && [a][..0] == [] && [b][..0] == [];
    BuiltExample(o, a, b, c);
    assert Components([a]) == [[a]] && Components([a, b]) == [[a], [b]];
    assert Kept(o, [b]) == [];
    PrunedStep(o, [a]);
    assert Pruned(o, [[a]]) == [[a]];
    PrunedStep(o, [a, b]);
    assert Pruned(o, [[a], [b]]) == [[a]];
    PrunedStep(o, [a, b, c]);
  }
}
