/**
  The subject of a new certificate: the request's name filtered through the CA
  policy, and the later removal of e-mail entries.
 */
module SubjectPolicy {

  import opened Options
  import opened Texts

  type Nid = int

  const UNDEFINED: Nid := 0

  /** A string value with its ASN.1 type; values compare equal when both agree. */
  datatype Value = Value(kind: int, data: string)

  /** An entry of a name; entries with the same `group` belong to one multi-valued component. */
  datatype Entry = Entry(oid: Nid, value: Value, group: int)

  type Name = seq<Entry>

  datatype PolicyItem = PolicyItem(name: string, rule: string)

  // ---------------------------------------------------------------- names

  /** Position of the first entry of the given type after `last`, or -1. */
  function IndexAfter(name: Name, oid: Nid, last: int): (j: int)
    requires -1 <= last < |name|
    ensures j == -1 || (last < j < |name| && name[j].oid == oid)
    ensures forall k :: last < k < (if j < 0 then |name| else j) ==> name[k].oid != oid
    decreases |name| - last
  {
    if last + 1 == |name| then -1
    else if name[last + 1].oid == oid then last + 1
    else IndexAfter(name, oid, last + 1)
  }

  /** Appends a copy of an entry as a component of its own. */
  function AddEntry(name: Name, e: Entry): Name {
    name + [e.(group := if name == [] then 0 else name[|name| - 1].group + 1)]
  }

  /** Removes an entry; when that empties its component, later components move down by one. */
  function DeleteEntry(name: Name, loc: nat): (r: Name)
    requires loc < |name|
    ensures |r| == |name| - 1
  {
    var rest := name[..loc] + name[loc + 1..];
    if loc == |rest| then rest
    else
      var previous := if loc != 0 then rest[loc - 1].group else name[loc].group - 1;
      if previous + 1 < rest[loc].group then
        seq(|rest|, i requires 0 <= i < |rest| => if i < loc then rest[i] else rest[i].(group := rest[i].group - 1))
      else rest
  }

  // ---------------------------------------------------------------- what the policy means

  /** The values of the given type, in order. */
  function Values(name: Name, oid: Nid): seq<Value> {
    if name == [] then []
    else (if name[0].oid == oid then [name[0].value] else []) + Values(name[1..], oid)
  }

  /** 'supplied' and 'match' need at least one entry; 'match' needs every value in the CA name too. */
  predicate RuleOk(oid: Nid, rule: string, name: Name, ca: Name) {
    var wanted := Values(name, oid);
    || rule == "optional"
    || (rule == "supplied" && wanted != [])
    || (rule == "match" && wanted != [] && forall v :: v in wanted ==> v in Values(ca, oid))
  }

  predicate ItemOk(nid: string -> Nid, item: PolicyItem, name: Name, ca: Name) {
    nid(item.name) != UNDEFINED && RuleOk(nid(item.name), item.rule, name, ca)
  }

  /** All request entries of each listed type, in policy order, as (type, value) pairs. */
  function Wanted(nid: string -> Nid, policy: seq<PolicyItem>, name: Name): seq<(Nid, Value)> {
    if policy == [] then []
    else Tagged(nid(policy[0].name), Values(name, nid(policy[0].name))) + Wanted(nid, policy[1..], name)
  }

  function Tagged(oid: Nid, values: seq<Value>): (r: seq<(Nid, Value)>)
    ensures |r| == |values|
  {
    seq(|values|, i requires 0 <= i < |values| => (oid, values[i]))
  }

  function Pairs(name: Name): (r: seq<(Nid, Value)>)
    ensures |r| == |name|
  {
    seq(|name|, i requires 0 <= i < |name| => (name[i].oid, name[i].value))
  }

  /** Every entry is a component of its own, numbered from 0. */
  predicate Flat(name: Name) {
    forall i :: 0 <= i < |name| ==> name[i].group == i
  }

  // ---------------------------------------------------------------- facts about values

  lemma {:induction false} ValuesConcat(a: Name, b: Name, oid: Nid)
    ensures Values(a + b, oid) == Values(a, oid) + Values(b, oid)
  {
    if a == [] {
      assert a + b == b;
    } else {
      assert (a + b)[0] == a[0] && (a + b)[1..] == a[1..] + b;
      ValuesConcat(a[1..], b, oid);
      Associate(if a[0].oid == oid then [a[0].value] else [], Values(a[1..], oid), Values(b, oid));
    }
  }

  lemma {:induction false} NoValues(name: Name, oid: Nid)
    requires forall k :: 0 <= k < |name| ==> name[k].oid != oid
    ensures Values(name, oid) == []
  {
    if name != [] {
      NoValues(name[1..], oid);
    }
  }

  /** Moving the search from `last` to the next entry of the type adds just its value. */
  lemma NextValue(name: Name, oid: Nid, last: int)
    requires -1 <= last < |name|
    ensures var j := IndexAfter(name, oid, last);
            Values(name[..if j < 0 then |name| else j + 1], oid) ==
            Values(name[..last + 1], oid) + (if j < 0 then [] else [name[j].value])
  {
    var j := IndexAfter(name, oid, last);
    var stop := if j < 0 then |name| else j;
    var between := name[last + 1..stop];
    NoValues(between, oid);
    assert name[..stop] == name[..last + 1] + between;
    ValuesConcat(name[..last + 1], between, oid);
    if j >= 0 {
      assert name[..j + 1] == name[..j] + [name[j]];
      ValuesConcat(name[..j], [name[j]], oid);
    }
  }

  lemma {:induction false} ValueAt(name: Name, oid: Nid, i: nat)
    requires i < |name| && name[i].oid == oid
    ensures name[i].value in Values(name, oid)
  {
    assert name == name[..i] + ([name[i]] + name[i + 1..]);
    ValuesConcat(name[..i], [name[i]] + name[i + 1..], oid);
    assert ([name[i]] + name[i + 1..])[0] == name[i];
  }

  /** A type has values exactly when some entry has the type, and a value is among them exactly when some such entry has it. */
  lemma {:induction false} ValuesAre(name: Name, oid: Nid)
    ensures Values(name, oid) == [] <==> forall i :: 0 <= i < |name| ==> name[i].oid != oid
    ensures forall v :: v in Values(name, oid) <==> exists i :: 0 <= i < |name| && name[i].oid == oid && name[i].value == v
  {
    if name != [] {
      ValuesAre(name[1..], oid);
      forall v
        ensures v in Values(name, oid) <==> exists i :: 0 <= i < |name| && name[i].oid == oid && name[i].value == v
      {
        if i :| 0 <= i < |name| && name[i].oid == oid && name[i].value == v {
          ValueAt(name, oid, i);
        }
        if v in Values(name[1..], oid) {
          var i :| 0 <= i < |name[1..]| && name[1..][i].oid == oid && name[1..][i].value == v;
          assert name[i + 1] == name[1..][i];
        }
      }
    }
  }

  ghost predicate Occurs(name: Name, oid: Nid) {
    exists j :: 0 <= j < |name| && name[j].oid == oid
  }

  ghost predicate OccursWith(name: Name, oid: Nid, value: Value) {
    exists j :: 0 <= j < |name| && name[j].oid == oid && name[j].value == value
  }

  /**
    What a policy item asks for: a known type and rule; 'supplied' and 'match'
    need an entry of the type; and for 'match' the CA name has an entry with the
    value of each one.
   */
  lemma ItemMeans(nid: string -> Nid, item: PolicyItem, name: Name, ca: Name)
    ensures ItemOk(nid, item, name, ca) <==>
            && nid(item.name) != UNDEFINED && item.rule in {"optional", "supplied", "match"}
            && (item.rule != "optional" ==> Occurs(name, nid(item.name)))
            && (item.rule == "match" ==>
                  forall i :: 0 <= i < |name| && name[i].oid == nid(item.name) ==> OccursWith(ca, nid(item.name), name[i].value))
  {
    var oid := nid(item.name);
    var (wanted, there) := (Values(name, oid), Values(ca, oid));
    ValuesAre(name, oid);
    ValuesAre(ca, oid);
    if forall v :: v in wanted ==> v in there {
      forall i | 0 <= i < |name| && name[i].oid == oid
        ensures OccursWith(ca, oid, name[i].value)
      {
        assert name[i].value in wanted;
      }
    }
    if forall i :: 0 <= i < |name| && name[i].oid == oid ==> OccursWith(ca, oid, name[i].value) {
      forall v | v in wanted
        ensures v in there
      {
        var i :| 0 <= i < |name| && name[i].oid == oid && name[i].value == v;
      }
    }
  }

  // ---------------------------------------------------------------- the loops

  /** Looks for an entry of the CA name with the type and the value; goes on from each one that differs. */
  method FindInCa(ca: Name, oid: Nid, value: Value) returns (at: int)
    ensures at >= 0 ==> at < |ca| && ca[at].oid == oid && ca[at].value == value
    ensures at < 0 <==> value !in Values(ca, oid)
  {
    var last := -1;
    while true
      invariant -1 <= last < |ca|
      invariant value !in Values(ca[..last + 1], oid)
      decreases |ca| - last
    {
      at := IndexAfter(ca, oid, last);
      NextValue(ca, oid, last);
      if at < 0 {
        assert ca[..|ca|] == ca;
        return;
      }
      if ca[at].value == value {
        ValueAt(ca, oid, at);
        return;
      }
      last := at;
    }
  }

  /**
    Builds the subject from the request's name: for each policy item, walks over
    the entries of its type and appends those that the rule lets through.
   */
  method ApplyPolicy(nid: string -> Nid, policy: seq<PolicyItem>, name: Name, ca: Name) returns (subject: Option<Name>)
    ensures subject.Some? <==> forall i :: 0 <= i < |policy| ==> ItemOk(nid, policy[i], name, ca)
    ensures subject.Some? ==> Pairs(subject.value) == Wanted(nid, policy, name) && Flat(subject.value)
  {
    var built: Name := [];
    var i := 0;
    while i < |policy|
      invariant i <= |policy| && Flat(built)
      invariant forall k :: 0 <= k < i ==> ItemOk(nid, policy[k], name, ca)
      invariant Pairs(built) + Wanted(nid, policy[i..], name) == Wanted(nid, policy, name)
    {
      var oid := nid(policy[i].name);
      if oid == UNDEFINED {
        return None;
      }
      var r := ApplyItem(oid, policy[i].rule, name, ca, built);
      if r.None? {
        return None;
      }
      WantedStep(nid, policy, name, i, Pairs(built));
      built := r.value;
      i := i + 1;
    }
    assert Pairs(built) + [] == Pairs(built);
    subject := Some(built);
  }

  /** What one item adds to what is wanted. */
  lemma WantedStep(nid: string -> Nid, policy: seq<PolicyItem>, name: Name, i: nat, before: seq<(Nid, Value)>)
    requires i < |policy|
    ensures var oid := nid(policy[i].name);
            before + Wanted(nid, policy[i..], name) == before + Tagged(oid, Values(name, oid)) + Wanted(nid, policy[i + 1..], name)
  {
    var oid := nid(policy[i].name);
    assert policy[i..][0] == policy[i] && policy[i..][1..] == policy[i + 1..];
    Associate(before, Tagged(oid, Values(name, oid)), Wanted(nid, policy[i + 1..], name));
  }

  /** When there is no further entry, all values have been seen. */
  lemma AllSeen(name: Name, oid: Nid, last: int)
    requires -1 <= last < |name| && IndexAfter(name, oid, last) < 0 && (last >= 0 ==> name[last].oid == oid)
    ensures Values(name, oid) == Values(name[..last + 1], oid) && (Values(name, oid) == [] <==> last == -1)
  {
    NextValue(name, oid, last);
    assert name[..|name|] == name;
    assert Values(name[..last + 1], oid) + [] == Values(name[..last + 1], oid);
    if last >= 0 {
      ValueAt(name, oid, last);
    } else {
      assert name[..0] == [];
    }
  }

  method ApplyItem(oid: Nid, rule: string, name: Name, ca: Name, subject: Name) returns (r: Option<Name>)
    requires Flat(subject)
    ensures r.Some? <==> RuleOk(oid, rule, name, ca)
    ensures r.Some? ==> Pairs(r.value) == Pairs(subject) + Tagged(oid, Values(name, oid)) && Flat(r.value)
  {
    var built := subject;
    var last := -1;
    assert name[..0] == [];
    assert Pairs(subject) + [] == Pairs(subject);
    while true
      invariant -1 <= last < |name|
      invariant last >= 0 ==> name[last].oid == oid && rule in {"optional", "supplied", "match"}
      invariant Flat(built) && Pairs(built) == Pairs(subject) + Tagged(oid, Values(name[..last + 1], oid))
      invariant rule == "match" ==> forall v :: v in Values(name[..last + 1], oid) ==> v in Values(ca, oid)
      decreases |name| - last
    {
      var j := IndexAfter(name, oid, last);
      NextValue(name, oid, last);
      if j < 0 {
        AllSeen(name, oid, last);
        if last != -1 {
          return Some(built);
        }
        return if rule == "optional" then Some(built) else None;
      }
      last := j;
      var push := name[j];
      if rule == "match" {
        var at := FindInCa(ca, oid, push.value);
        if at < 0 {
          ValueAt(name, oid, j);
          return None;
        }
        push := ca[at];
      } else if rule != "optional" && rule != "supplied" {
        return None;
      }
      assert Pairs(AddEntry(built, push)) == Pairs(built) + [(oid, name[j].value)];
      built := AddEntry(built, push);
    }
  }

  // ---------------------------------------------------------------- e-mail removal

  /** Components are numbered from 0 without gaps. */
  predicate Numbered(name: Name) {
    && (name != [] ==> name[0].group == 0)
    && forall i :: 0 < i < |name| ==> name[i - 1].group <= name[i].group <= name[i - 1].group + 1
  }

  /** Same types and values in the same order, grouped into components in the same way. */
  ghost predicate SameShape(a: Name, b: Name) {
    && |a| == |b|
    && (forall i :: 0 <= i < |a| ==> a[i].oid == b[i].oid && a[i].value == b[i].value)
    && forall i, j :: 0 <= i <= j < |a| ==> (a[i].group == a[j].group <==> b[i].group == b[j].group)
  }

  function Without(name: Name, oid: Nid): Name {
    if name == [] then []
    else (if name[0].oid == oid then [] else [name[0]]) + Without(name[1..], oid)
  }

  lemma {:induction false} WithoutConcat(a: Name, b: Name, oid: Nid)
    ensures Without(a + b, oid) == Without(a, oid) + Without(b, oid)
  {
    if a == [] {
      assert a + b == b;
    } else {
      assert (a + b)[0] == a[0] && (a + b)[1..] == a[1..] + b;
      WithoutConcat(a[1..], b, oid);
    }
  }

  lemma {:induction false} WithoutNothing(name: Name, oid: Nid)
    requires forall k :: 0 <= k < |name| ==> name[k].oid != oid
    ensures Without(name, oid) == name
  {
    if name != [] {
      WithoutNothing(name[1..], oid);
    }
  }

  function Drop(name: Name, loc: nat): Name
    requires loc < |name|
  {
    name[..loc] + name[loc + 1..]
  }

  lemma DropMatching(name: Name, loc: nat, oid: Nid)
    requires loc < |name| && name[loc].oid == oid
    ensures Without(Drop(name, loc), oid) == Without(name, oid)
  {
    assert name == name[..loc] + ([name[loc]] + name[loc + 1..]);
    WithoutConcat(name[..loc], [name[loc]] + name[loc + 1..], oid);
    assert ([name[loc]] + name[loc + 1..])[1..] == name[loc + 1..];
    WithoutConcat(name[..loc], name[loc + 1..], oid);
  }

  lemma {:induction false} GroupsRise(name: Name, i: nat, j: nat)
    requires Numbered(name) && i <= j < |name|
    ensures 0 <= name[i].group <= name[j].group <= name[i].group + (j - i)
    decreases j
  {
    if i < j {
      GroupsRise(name, i, j - 1);
    } else if i > 0 {
      GroupsRise(name, i - 1, i - 1);
    }
  }

  lemma DeleteKeepsNumbering(name: Name, loc: nat)
    requires Numbered(name) && loc < |name|
    ensures Numbered(DeleteEntry(name, loc))
  {
    var r := DeleteEntry(name, loc);
    forall i | 0 < i < |r|
      ensures r[i - 1].group <= r[i].group <= r[i - 1].group + 1
    {
      assert name[i - 1].group <= name[i].group <= name[i - 1].group + 1;
      assert name[i].group <= name[i + 1].group <= name[i].group + 1;
    }
    if r != [] {
      assert name[0].group <= name[1].group <= name[0].group + 1;
    }
  }

  /** Deleting an entry keeps the grouping of the others. */
  lemma DeleteKeepsShape(name: Name, loc: nat)
    requires Numbered(name) && loc < |name|
    ensures SameShape(DeleteEntry(name, loc), Drop(name, loc))
  {
    var (r, rest) := (DeleteEntry(name, loc), Drop(name, loc));
    forall i, j | 0 <= i <= j < |rest|
      ensures r[i].group == r[j].group <==> rest[i].group == rest[j].group
    {
      if i < loc <= j {
        GroupsRise(name, i, loc - 1);
        GroupsRise(name, loc + 1, j + 1);
        assert rest[loc - 1] == name[loc - 1] && rest[loc] == name[loc + 1];
      }
    }
  }

  lemma ShapeOfDrop(a: Name, b: Name, loc: nat)
    requires SameShape(a, b) && loc < |a|
    ensures SameShape(Drop(a, loc), Drop(b, loc))
  {
    var (da, db) := (Drop(a, loc), Drop(b, loc));
    assert forall i :: 0 <= i < |da| ==> da[i] == a[if i < loc then i else i + 1] && db[i] == b[if i < loc then i else i + 1];
  }

  lemma ShapeTransitive(a: Name, b: Name, c: Name)
    requires SameShape(a, b) && SameShape(b, c)
    ensures SameShape(a, c)
  {
  }

  /** Deletes entry after entry of the given type, resuming each search at the place of the last one. */
  method RemoveEntries(name: Name, oid: Nid) returns (dn: Name)
    requires Numbered(name)
    ensures SameShape(dn, Without(name, oid)) && Numbered(dn)
    ensures forall i :: 0 <= i < |dn| ==> dn[i].oid != oid
  {
    dn := name;
    ghost var kept := name;
    var i := -1;
    while true
      invariant -1 <= i < |dn| && Numbered(dn)
      invariant SameShape(dn, kept) && Without(kept, oid) == Without(name, oid)
      invariant forall k :: 0 <= k <= i ==> dn[k].oid != oid
      decreases |dn|
    {
      i := IndexAfter(dn, oid, i);
      if i < 0 {
        WithoutNothing(kept, oid);
        return;
      }
      DropMatching(kept, i, oid);
      DeleteKeepsNumbering(dn, i);
      DeleteKeepsShape(dn, i);
      ShapeOfDrop(dn, kept, i);
      ShapeTransitive(DeleteEntry(dn, i), Drop(dn, i), Drop(kept, i));
      dn, kept := DeleteEntry(dn, i), Drop(kept, i);
      i := i - 1;
    }
  }
}
