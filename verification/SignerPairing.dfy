/**
  Signers, keys and key parameters of a signing operation: how -signer, -inkey
  and -keyopt options in any order are put together.
 */
module SignerPairing {

  import opened Options
  import opened Texts

  datatype Opt = Signer(file: string) | Inkey(file: string) | Keyopt(param: string)

  // ---------------------------------------------------------------- what the options say

  function Signers(opts: seq<Opt>): seq<string> {
    if opts == [] then []
    else
      var (before, last) := (Signers(opts[..|opts| - 1]), opts[|opts| - 1]);
      if last.Signer? then before + [last.file] else before
  }

  function Keys(opts: seq<Opt>): seq<string> {
    if opts == [] then []
    else
      var (before, last) := (Keys(opts[..|opts| - 1]), opts[|opts| - 1]);
      if last.Inkey? then before + [last.file] else before
  }

  function Params(opts: seq<Opt>): seq<string> {
    if opts == [] then []
    else
      var (before, last) := (Params(opts[..|opts| - 1]), opts[|opts| - 1]);
      if last.Keyopt? then before + [last.param] else before
  }

  /** Options for one signer so far: at most one signer and one key, and parameters only behind one of them. */
  predicate IsPart(part: seq<Opt>) {
    |Signers(part)| <= 1 && |Keys(part)| <= 1 && (part != [] ==> !part[0].Keyopt?)
  }

  /** Options for one signer: a signer, perhaps a key before or after it, and parameters. */
  predicate IsBlock(block: seq<Opt>) {
    IsPart(block) && |Signers(block)| == 1
  }

  predicate AllBlocks(blocks: seq<seq<Opt>>) {
    forall i :: 0 <= i < |blocks| ==> IsBlock(blocks[i])
  }

  function Flatten(blocks: seq<seq<Opt>>): seq<Opt> {
    if blocks == [] then [] else Flatten(blocks[..|blocks| - 1]) + blocks[|blocks| - 1]
  }

  /** Option sequences that can be taken apart into the options of one or more signers. */
  ghost predicate Decomposes(opts: seq<Opt>) {
    exists blocks :: blocks != [] && AllBlocks(blocks) && Flatten(blocks) == opts
  }

  /** A signature to make: certificate and key files, and the key parameters. */
  datatype Job = Job(signer: string, key: string, params: seq<string>)

  // ---------------------------------------------------------------- option by option

  /** Complete blocks, and the part under construction. */
  datatype State = State(done: seq<seq<Opt>>, open: seq<Opt>)

  predicate Sane(st: State) {
    AllBlocks(st.done) && IsPart(st.open) && (st.open == [] ==> st.done == [])
  }

  function Close(st: State, opt: Opt): State {
    State(st.done + [st.open], [opt])
  }

  function Extend(st: State, opt: Opt): State {
    st.(open := st.open + [opt])
  }

  function Advance(st: State, opt: Opt): Option<State> {
    match opt
    case Signer(_) => Some(if Signers(st.open) != [] then Close(st, opt) else Extend(st, opt))
    case Inkey(_) =>
      if Keys(st.open) == [] then Some(Extend(st, opt))
      else if Signers(st.open) == [] then None
      else Some(Close(st, opt))
    case Keyopt(_) => if st.open == [] then None else Some(Extend(st, opt))
  }

  function Run(opts: seq<Opt>): Option<State> {
    if opts == [] then Some(State([], []))
    else
      var before := Run(opts[..|opts| - 1]);
      if before.None? then None else Advance(before.value, opts[|opts| - 1])
  }

  /** The blocks at the end; none if a key is left without a signer or there is no signer at all. */
  function Blocks(opts: seq<Opt>): Option<seq<seq<Opt>>> {
    var st := Run(opts);
    if st.None? || Signers(st.value.open) == [] then None else Some(st.value.done + [st.value.open])
  }

  lemma Append(opts: seq<Opt>, opt: Opt)
    ensures Signers(opts + [opt]) == Signers(opts) + if opt.Signer? then [opt.file] else []
    ensures Keys(opts + [opt]) == Keys(opts) + if opt.Inkey? then [opt.file] else []
    ensures Params(opts + [opt]) == Params(opts) + if opt.Keyopt? then [opt.param] else []
  {
    assert (opts + [opt])[..|opts|] == opts;
  }

  lemma One(opt: Opt)
    ensures Signers([opt]) == if opt.Signer? then [opt.file] else []
    ensures Keys([opt]) == if opt.Inkey? then [opt.file] else []
    ensures Params([opt]) == if opt.Keyopt? then [opt.param] else []
  {
    Append([], opt);
    assert [] + [opt] == [opt];
  }

  lemma AdvanceKeeps(st: State, opt: Opt)
    requires Sane(st) && Advance(st, opt).Some?
    ensures var st' := Advance(st, opt).value;
            Sane(st') && Flatten(st'.done) + st'.open == Flatten(st.done) + st.open + [opt]
  {
    Append(st.open, opt);
    One(opt);
    Associate(Flatten(st.done), st.open, [opt]);
    TakeDone(st.done, st.open);
  }

  lemma TakeDone(done: seq<seq<Opt>>, part: seq<Opt>)
    ensures Flatten(done + [part]) == Flatten(done) + part
  {
    assert (done + [part])[..|done|] == done;
  }

  /** After any options the blocks and the open part are just these options, in order. */
  lemma {:induction false} RunKeeps(opts: seq<Opt>)
    requires Run(opts).Some?
    ensures Sane(Run(opts).value) && Flatten(Run(opts).value.done) + Run(opts).value.open == opts
  {
    if opts != [] {
      var n := |opts| - 1;
      RunKeeps(opts[..n]);
      AdvanceKeeps(Run(opts[..n]).value, opts[n]);
      assert opts[..n] + [opts[n]] == opts;
    }
  }

  /** What is accepted is taken apart into blocks. */
  lemma BlocksAreBlocks(opts: seq<Opt>)
    requires Blocks(opts).Some?
    ensures var blocks := Blocks(opts).value;
            blocks != [] && AllBlocks(blocks) && Flatten(blocks) == opts
  {
    RunKeeps(opts);
    var st := Run(opts).value;
    assert (st.done + [st.open])[..|st.done|] == st.done;
  }

  // ---------------------------------------------------------------- nothing else is refused

  /** The parser is between blocks: nothing yet, or a signer is there. */
  ghost predicate Between(r: Option<State>) {
    r.Some? && Sane(r.value) && (r.value.open == [] || Signers(r.value.open) != [])
  }

  /** The parser is inside a block of which it has seen a non-empty part. */
  ghost predicate Inside(r: Option<State>, part: seq<Opt>) {
    && r.Some? && Sane(r.value) && r.value.open != []
    && (if Signers(part) == [] then Keys(r.value.open) != [] else Signers(r.value.open) != [])
    && (Keys(part) == [] ==> Keys(r.value.open) == [])
  }

  lemma RunMore(opts: seq<Opt>, opt: Opt)
    ensures Run(opts + [opt]) == if Run(opts).None? then None else Advance(Run(opts).value, opt)
  {
    assert (opts + [opt])[..|opts|] == opts;
  }

  lemma InsideFirst(opts: seq<Opt>, opt: Opt)
    requires Between(Run(opts)) && !opt.Keyopt?
    ensures Inside(Run(opts + [opt]), [opt])
  {
    var st := Run(opts).value;
    RunMore(opts, opt);
    One(opt);
    Append(st.open, opt);
    AdvanceKeeps(st, opt);
  }

  lemma InsideMore(opts: seq<Opt>, part: seq<Opt>, opt: Opt)
    requires part != [] && Inside(Run(opts + part), part)
    requires |Signers(part + [opt])| <= 1 && |Keys(part + [opt])| <= 1
    ensures Inside(Run(opts + part + [opt]), part + [opt])
  {
    var st := Run(opts + part).value;
    RunMore(opts + part, opt);
    Append(part, opt);
    One(opt);
    Append(st.open, opt);
    AdvanceKeeps(st, opt);
  }

  lemma {:induction false} CountsGrow(a: seq<Opt>, n: nat)
    requires n <= |a|
    ensures |Signers(a[..n])| <= |Signers(a)| && |Keys(a[..n])| <= |Keys(a)|
  {
    if n < |a| {
      var m := |a| - 1;
      CountsGrow(a[..m], n);
      assert a[..m][..n] == a[..n];
    } else {
      assert a[..n] == a;
    }
  }

  lemma {:induction false} InsideBlock(opts: seq<Opt>, block: seq<Opt>, n: nat)
    requires Between(Run(opts)) && IsPart(block) && 0 < n <= |block|
    ensures Inside(Run(opts + block[..n]), block[..n])
  {
    var (m, opt) := (n - 1, block[n - 1]);
    assert block[..n] == block[..m] + [opt];
    if m == 0 {
      assert block[..1] == [opt];
      InsideFirst(opts, opt);
    } else {
      InsideBlock(opts, block, m);
      CountsGrow(block, n);
      InsideMore(opts, block[..m], opt);
      Associate(opts, block[..m], [opt]);
    }
  }

  lemma {:induction false} RunBlocks(blocks: seq<seq<Opt>>)
    requires AllBlocks(blocks)
    ensures Between(Run(Flatten(blocks)))
    ensures blocks != [] ==> Signers(Run(Flatten(blocks)).value.open) != []
  {
    if blocks != [] {
      var (before, block) := (blocks[..|blocks| - 1], blocks[|blocks| - 1]);
      RunBlocks(before);
      InsideBlock(Flatten(before), block, |block|);
      assert block[..|block|] == block;
    }
  }

  /** Options are accepted if and only if they can be taken apart into blocks. */
  lemma AcceptedIff(opts: seq<Opt>)
    ensures Blocks(opts).Some? <==> Decomposes(opts)
  {
    if Blocks(opts).Some? {
      BlocksAreBlocks(opts);
    }
    if Decomposes(opts) {
      var blocks :| blocks != [] && AllBlocks(blocks) && Flatten(blocks) == opts;
      RunBlocks(blocks);
    }
  }

  // ---------------------------------------------------------------- which blocks

  /** A block ends only where the next option cannot be part of it. */
  ghost predicate Greedy(blocks: seq<seq<Opt>>) {
    var m := |blocks| - 1;
    m <= 0 || (Greedy(blocks[..m]) && blocks[m] != [] && !IsPart(blocks[m - 1] + [blocks[m][0]]))
  }

  /** What has been done is cut greedily, and the open part is behind it. */
  ghost predicate GreedyState(st: State) {
    Greedy(st.done + [st.open])
  }

  lemma GreedyMore(blocks: seq<seq<Opt>>, next: seq<Opt>)
    requires blocks != []
    ensures Greedy(blocks + [next]) <==> Greedy(blocks) && next != [] && !IsPart(blocks[|blocks| - 1] + [next[0]])
  {
    var all := blocks + [next];
    assert all[..|blocks|] == blocks && all[|blocks|] == next && all[|blocks| - 1] == blocks[|blocks| - 1];
  }

  lemma GreedyFront(blocks: seq<seq<Opt>>, last: seq<Opt>, last': seq<Opt>)
    requires Greedy(blocks + [last]) && (blocks != [] ==> last != [] && last' != [] && last'[0] == last[0])
    ensures Greedy(blocks + [last'])
  {
    if blocks != [] {
      GreedyMore(blocks, last);
      GreedyMore(blocks, last');
    }
  }

  /** An option that closes a part could not have been added to it, and the other way round. */
  lemma ClosesIff(part: seq<Opt>, opt: Opt)
    requires IsPart(part) && part != []
    ensures IsPart(part + [opt]) <==>
            if opt.Signer? then Signers(part) == [] else if opt.Inkey? then Keys(part) == [] else true
  {
    Append(part, opt);
    assert (part + [opt])[0] == part[0];
  }

  lemma AdvanceGreedy(st: State, opt: Opt)
    requires Sane(st) && GreedyState(st) && Advance(st, opt).Some?
    ensures GreedyState(Advance(st, opt).value)
  {
    var st' := Advance(st, opt).value;
    if st.open == [] {
      assert st'.done == [];
    } else if st'.done == st.done {
      GreedyFront(st.done, st.open, st'.open);
    } else {
      ClosesIff(st.open, opt);
      GreedyMore(st.done + [st.open], [opt]);
    }
  }

  lemma {:induction false} RunGreedy(opts: seq<Opt>)
    requires Run(opts).Some?
    ensures Sane(Run(opts).value) && GreedyState(Run(opts).value)
  {
    if opts != [] {
      var n := |opts| - 1;
      RunGreedy(opts[..n]);
      AdvanceKeeps(Run(opts[..n]).value, opts[n]);
      AdvanceGreedy(Run(opts[..n]).value, opts[n]);
    }
  }

  /** The parser has closed the given blocks and is inside a part. */
  ghost predicate IsAt(r: Option<State>, done: seq<seq<Opt>>, part: seq<Opt>) {
    r == Some(State(done, part))
  }

  lemma {:induction false} RunsThrough(done: seq<seq<Opt>>, block: seq<Opt>, n: nat)
    requires IsPart(block) && 0 < n <= |block|
    requires IsAt(Run(Flatten(done) + block[..1]), done, block[..1])
    ensures IsAt(Run(Flatten(done) + block[..n]), done, block[..n])
  {
    if n > 1 {
      var opt := block[n - 1];
      RunsThrough(done, block, n - 1);
      assert block[..n] == block[..n - 1] + [opt];
      Associate(Flatten(done), block[..n - 1], [opt]);
      RunMore(Flatten(done) + block[..n - 1], opt);
      CountsGrow(block, n);
      Append(block[..n - 1], opt);
    }
  }

  /** The first option of a block, behind a complete one that it could not be added to. */
  lemma RunsInto(done: seq<seq<Opt>>, last: seq<Opt>, opt: Opt)
    requires IsBlock(last) && IsAt(Run(Flatten(done) + last), done, last) && !IsPart(last + [opt])
    ensures IsAt(Run(Flatten(done + [last]) + [opt]), done + [last], [opt])
  {
    TakeDone(done, last);
    RunMore(Flatten(done) + last, opt);
    assert last != [];
    ClosesIff(last, opt);
  }

  lemma RunsFirst(opt: Opt)
    requires !opt.Keyopt?
    ensures IsAt(Run([opt]), [], [opt])
  {
    RunMore([], opt);
    assert [] + [opt] == [opt];
  }

  /** The blocks but the last, as the parser has them. */
  ghost predicate Found(blocks: seq<seq<Opt>>) {
    blocks != [] && IsAt(Run(Flatten(blocks)), blocks[..|blocks| - 1], blocks[|blocks| - 1])
  }

  lemma FoundMore(before: seq<seq<Opt>>, block: seq<Opt>)
    requires Found(before) && IsBlock(before[|before| - 1]) && IsBlock(block) && !IsPart(before[|before| - 1] + [block[0]])
    ensures Found(before + [block])
  {
    var n := |before| - 1;
    assert before == before[..n] + [before[n]];
    TakeDone(before[..n], before[n]);
    RunsInto(before[..n], before[n], block[0]);
    BlockRuns(before, block);
  }

  lemma BlockRuns(before: seq<seq<Opt>>, block: seq<Opt>)
    requires IsBlock(block) && IsAt(Run(Flatten(before) + [block[0]]), before, [block[0]])
    ensures Found(before + [block])
  {
    assert block[..1] == [block[0]] && block[..|block|] == block;
    RunsThrough(before, block, |block|);
    TakeDone(before, block);
    assert (before + [block])[..|before|] == before;
  }

  /** Blocks cut greedily are the ones the parser finds. */
  lemma {:induction false} GreedyRuns(blocks: seq<seq<Opt>>)
    requires blocks != [] && AllBlocks(blocks) && Greedy(blocks)
    ensures Found(blocks)
  {
    var m := |blocks| - 1;
    var (before, block) := (blocks[..m], blocks[m]);
    assert blocks == before + [block] && IsBlock(block);
    if m == 0 {
      RunsFirst(block[0]);
      assert Flatten(before) + [block[0]] == [block[0]];
      BlockRuns(before, block);
    } else {
      GreedyRuns(before);
      FoundMore(before, block);
    }
  }

  /** The blocks are the only ones that options can be taken apart into with each one as long as it can be. */
  lemma BlocksIff(opts: seq<Opt>, blocks: seq<seq<Opt>>)
    ensures Blocks(opts) == Some(blocks) <==> blocks != [] && AllBlocks(blocks) && Greedy(blocks) && Flatten(blocks) == opts
  {
    if Blocks(opts) == Some(blocks) {
      BlocksAreBlocks(opts);
      RunGreedy(opts);
    }
    if blocks != [] && AllBlocks(blocks) && Greedy(blocks) && Flatten(blocks) == opts {
      GreedyRuns(blocks);
      assert blocks == blocks[..|blocks| - 1] + [blocks[|blocks| - 1]];
      assert IsBlock(blocks[|blocks| - 1]);
    }
  }

  // ---------------------------------------------------------------- groups of parameters

  /** The parameters of one signer, under its position. */
  datatype Group = Group(idx: nat, params: seq<string>)

  function Groups(blocks: seq<seq<Opt>>): seq<Group> {
    if blocks == [] then []
    else
      var m := |blocks| - 1;
      var before := Groups(blocks[..m]);
      if Params(blocks[m]) == [] then before else before + [Group(m, Params(blocks[m]))]
  }

  /** The positions of the groups increase strictly. */
  lemma {:induction false} GroupsOrdered(blocks: seq<seq<Opt>>)
    ensures forall k :: 0 <= k < |Groups(blocks)| ==> Groups(blocks)[k].idx < |blocks|
    ensures forall j, k :: 0 <= j < k < |Groups(blocks)| ==> Groups(blocks)[j].idx < Groups(blocks)[k].idx
  {
    if blocks != [] {
      GroupsOrdered(blocks[..|blocks| - 1]);
    }
  }

  /** The parameters of the first group with a position. */
  function FindGroup(groups: seq<Group>, idx: nat): seq<string> {
    if groups == [] then [] else if groups[0].idx == idx then groups[0].params else FindGroup(groups[1..], idx)
  }

  lemma {:induction false} FindGroupAppend(groups: seq<Group>, g: Group, idx: nat)
    requires forall k :: 0 <= k < |groups| ==> groups[k].idx < g.idx
    ensures FindGroup(groups + [g], idx) == if idx == g.idx then g.params else FindGroup(groups, idx)
  {
    if groups != [] {
      FindGroupAppend(groups[1..], g, idx);
      assert (groups + [g])[1..] == groups[1..] + [g];
    }
  }

  lemma {:induction false} FindBeyond(groups: seq<Group>, idx: nat)
    requires forall k :: 0 <= k < |groups| ==> groups[k].idx < idx
    ensures FindGroup(groups, idx) == []
  {
    if groups != [] {
      FindBeyond(groups[1..], idx);
    }
  }

  /** Each signer's parameters are the group with its position; without parameters it has none. */
  lemma {:induction false} GroupsFind(blocks: seq<seq<Opt>>, i: nat)
    requires i < |blocks|
    ensures FindGroup(Groups(blocks), i) == Params(blocks[i])
  {
    var m := |blocks| - 1;
    var before := blocks[..m];
    GroupsOrdered(before);
    if i < m {
      GroupsFind(before, i);
    } else {
      FindBeyond(Groups(before), m);
    }
    FindGroupAppend(Groups(before), Group(m, Params(blocks[m])), i);
  }

  /** The blocks with the part under construction as the last. */
  function AllOf(st: State): seq<seq<Opt>> {
    if st.open == [] then st.done else st.done + [st.open]
  }

  lemma GroupsLast(done: seq<seq<Opt>>, part: seq<Opt>)
    ensures Groups(done + [part]) == if Params(part) == [] then Groups(done) else Groups(done) + [Group(|done|, Params(part))]
  {
    assert (done + [part])[..|done|] == done;
  }

  function AddParam(groups: seq<Group>, idx: nat, param: string): seq<Group> {
    var m := |groups| - 1;
    if groups != [] && groups[m].idx == idx then groups[..m] + [Group(idx, groups[m].params + [param])]
    else groups + [Group(idx, [param])]
  }

  /** A new parameter goes into the last group if that is of the same signer, or into a new one. */
  lemma GroupsAdd(st: State, param: string)
    requires st.open != []
    ensures var (groups, n) := (Groups(AllOf(st)), |st.done|);
            Groups(AllOf(Extend(st, Keyopt(param)))) == AddParam(groups, n, param)
  {
    GroupsLast(st.done, st.open);
    GroupsLast(st.done, st.open + [Keyopt(param)]);
    Append(st.open, Keyopt(param));
    GroupsOrdered(st.done);
    AddParamLast(Groups(st.done), |st.done|, Params(st.open), param);
  }

  lemma AddParamLast(before: seq<Group>, n: nat, params: seq<string>, param: string)
    requires forall k :: 0 <= k < |before| ==> before[k].idx < n
    ensures AddParam(if params == [] then before else before + [Group(n, params)], n, param) == before + [Group(n, params + [param])]
  {
    if params == [] {
      assert [] + [param] == [param];
    } else {
      assert (before + [Group(n, params)])[..|before|] == before;
    }
  }

  lemma GroupsOther(st: State, opt: Opt)
    requires Sane(st) && !opt.Keyopt? && Advance(st, opt).Some?
    ensures Groups(AllOf(Advance(st, opt).value)) == Groups(AllOf(st))
  {
    GroupsLast(st.done, st.open);
    GroupsLast(st.done, st.open + [opt]);
    GroupsLast(st.done + [st.open], [opt]);
    Append(st.open, opt);
    One(opt);
  }

  // ---------------------------------------------------------------- the program's variables

  function First(files: seq<string>): Option<string> {
    if files == [] then None else Some(files[0])
  }

  class KeyParam {
    const idx: int
    var param: seq<string>
    var next: KeyParam?

    constructor (idx: int, param: string)
      ensures this.idx == idx && this.param == [param] && next == null
    {
      this.idx, this.param, next := idx, [param], null;
    }
  }

  /** The variables hold the part under construction, and the stacks the complete pairs. */
  ghost predicate PairsOk(st: State, signer: Option<string>, key: Option<string>, signers: seq<string>, keys: seq<string>) {
    && Sane(st)
    && signer == First(Signers(st.open)) && key == First(Keys(st.open))
    && PairsDone(st.done, signers, keys)
  }

  ghost predicate PairsDone(blocks: seq<seq<Opt>>, signers: seq<string>, keys: seq<string>) {
    && AllBlocks(blocks) && |signers| == |keys| == |blocks|
    && forall i :: 0 <= i < |blocks| ==>
         && signers[i] == Signers(blocks[i])[0]
         && keys[i] == if Keys(blocks[i]) == [] then signers[i] else Keys(blocks[i])[0]
  }

  /** The key of a signer, which is itself if it was given none. */
  function KeyFor(signer: string, key: Option<string>): string {
    if key.None? then signer else key.value
  }

  lemma PairsPush(st: State, signer: string, key: Option<string>, signers: seq<string>, keys: seq<string>)
    requires PairsOk(st, Some(signer), key, signers, keys)
    ensures PairsDone(st.done + [st.open], signers + [signer], keys + [KeyFor(signer, key)])
  {
  }

  lemma PairsClose(st: State, signer: string, key: Option<string>, signers: seq<string>, keys: seq<string>, opt: Opt)
    requires PairsOk(st, Some(signer), key, signers, keys) && !opt.Keyopt?
    ensures PairsOk(Close(st, opt), if opt.Signer? then Some(opt.file) else None, if opt.Inkey? then Some(opt.file) else None,
                    signers + [signer], keys + [KeyFor(signer, key)])
  {
    PairsPush(st, signer, key, signers, keys);
    One(opt);
  }

  lemma PairsExtend(st: State, signer: Option<string>, key: Option<string>, signers: seq<string>, keys: seq<string>, opt: Opt)
    requires PairsOk(st, signer, key, signers, keys) && Advance(st, opt) == Some(Extend(st, opt))
    requires (opt.Signer? ==> signer == None) && (opt.Inkey? ==> key == None)
    ensures PairsOk(Extend(st, opt), if opt.Signer? then Some(opt.file) else signer, if opt.Inkey? then Some(opt.file) else key, signers, keys)
  {
    Append(st.open, opt);
    AdvanceKeeps(st, opt);
  }

  /** The linked list of key parameters. */
  class ParamList {
    var keyFirst: KeyParam?
    var keyParam: KeyParam?
    ghost var groups: seq<Group>
    ghost var list: seq<KeyParam>
    ghost var nodes: set<KeyParam>

    /** The list is linked from first to last and holds the groups. */
    ghost predicate Valid()
      reads this, nodes
    {
      && |list| == |groups|
      && (forall i :: 0 <= i < |list| ==> list[i] in nodes)
      && (forall i, j :: 0 <= i < j < |list| ==> list[i] != list[j])
      && (forall i :: 0 <= i < |list| ==> list[i].idx == groups[i].idx && list[i].param == groups[i].params)
      && (if list == [] then keyFirst == null && keyParam == null else keyFirst == list[0] && keyParam == list[|list| - 1])
      && (list != [] ==> list[|list| - 1].next == null)
      && forall i {:trigger list[i].next} :: 0 <= i < |list| - 1 ==> list[i].next == list[i + 1]
    }

    constructor ()
      ensures Valid() && groups == [] && nodes == {}
    {
      keyFirst, keyParam, groups, list, nodes := null, null, [], [], {};
    }

    /** Appends a new node. */
    method NewGroup(keyidx: nat, param: string)
      requires Valid()
      modifies this, nodes
      ensures Valid() && groups == old(groups) + [Group(keyidx, [param])]
      ensures fresh(nodes - old(nodes))
    {
      var nparam := new KeyParam(keyidx, param);
      if keyFirst == null {
        keyFirst := nparam;
      } else {
        keyParam.next := nparam;
      }
      keyParam := nparam;
      list, nodes, groups := list + [nparam], nodes + {nparam}, groups + [Group(keyidx, [param])];
    }

    /** Puts a parameter into the last group if that has the position, or into a new one. */
    method Add(keyidx: nat, param: string)
      requires Valid()
      modifies this, nodes
      ensures Valid() && groups == AddParam(old(groups), keyidx, param)
      ensures fresh(nodes - old(nodes))
    {
      if keyParam == null || keyParam.idx != keyidx {
        NewGroup(keyidx, param);
      } else {
        keyParam.param := keyParam.param + [param];
        groups := AddParam(groups, keyidx, param);
      }
    }

    /** Walks the list for the group with a position. */
    method Find(i: nat) returns (params: seq<string>)
      requires Valid()
      ensures params == FindGroup(groups, i)
    {
      var kparam := keyFirst;
      ghost var j := 0;
      assert groups[0..] == groups;
      while kparam != null && kparam.idx != i
        invariant 0 <= j <= |list| && (if j < |list| then kparam == list[j] else kparam == null)
        invariant FindGroup(groups[j..], i) == FindGroup(groups, i)
        decreases |list| - j
      {
        assert groups[j..][1..] == groups[j + 1..];
        kparam := kparam.next;
        j := j + 1;
      }
      params := if kparam == null then [] else kparam.param;
    }
  }

  class Signing {
    var signerfile: Option<string>
    var keyfile: Option<string>
    var sksigners: seq<string>
    var skkeys: seq<string>
    const params: ParamList
    ghost var st: State

    ghost predicate Valid()
      reads this
    {
      PairsOk(st, signerfile, keyfile, sksigners, skkeys)
    }

    constructor ()
      ensures Valid() && st == State([], []) && fresh(params) && params.Valid() && params.groups == [] && params.nodes == {}
    {
      signerfile, keyfile, sksigners, skkeys := None, None, [], [];
      params := new ParamList();
      st := State([], []);
    }

    /** -signer: an earlier signer is complete. */
    method OnSigner(file: string)
      requires Valid()
      modifies this
      ensures Valid() && Advance(old(st), Signer(file)) == Some(st)
    {
      if signerfile.Some? {
        PairsClose(st, signerfile.value, keyfile, sksigners, skkeys, Signer(file));
        sksigners := sksigners + [signerfile.value];
        if keyfile.None? {
          keyfile := signerfile;
        }
        skkeys := skkeys + [keyfile.value];
        keyfile := None;
      } else {
        PairsExtend(st, signerfile, keyfile, sksigners, skkeys, Signer(file));
      }
      signerfile := Some(file);
      st := Advance(st, Signer(file)).value;
    }

    /** -inkey: an earlier key needs its signer, and the two are complete. */
    method OnInkey(file: string) returns (ok: bool)
      requires Valid()
      modifies this
      ensures ok == Advance(old(st), Inkey(file)).Some?
      ensures ok ==> Valid() && Advance(old(st), Inkey(file)) == Some(st)
    {
      if keyfile.Some? {
        if signerfile.None? {
          return false;
        }
        PairsClose(st, signerfile.value, keyfile, sksigners, skkeys, Inkey(file));
        sksigners := sksigners + [signerfile.value];
        signerfile := None;
        skkeys := skkeys + [keyfile.value];
      } else {
        PairsExtend(st, signerfile, keyfile, sksigners, skkeys, Inkey(file));
      }
      keyfile := Some(file);
      st := Advance(st, Inkey(file)).value;
      ok := true;
    }

    /** -keyopt: a parameter for the pair under construction. */
    method OnKeyopt(param: string) returns (ok: bool)
      requires Valid() && params.Valid()
      modifies this, params, params.nodes
      ensures ok == Advance(old(st), Keyopt(param)).Some?
      ensures ok ==> Valid() && params.Valid() && Advance(old(st), Keyopt(param)) == Some(st)
      ensures ok ==> params.groups == AddParam(old(params.groups), |old(st).done|, param)
      ensures fresh(params.nodes - old(params.nodes))
    {
      var keyidx := -1;
      if keyfile.Some? || signerfile.Some? {
        keyidx := keyidx + 1;
      }
      keyidx := keyidx + |skkeys|;
      PartHasFile(st.open);
      if keyidx < 0 {
        return false;
      }
      params.Add(keyidx, param);
      PairsExtend(st, signerfile, keyfile, sksigners, skkeys, Keyopt(param));
      st := Extend(st, Keyopt(param));
      ok := true;
    }

    /** The last pair; refuses a key without a signer, and no signer at all. */
    method Finish() returns (ok: bool)
      requires Valid()
      modifies this`sksigners, this`skkeys, this`signerfile, this`keyfile
      ensures ok == (Signers(st.open) != [])
      ensures ok ==> PairsDone(st.done + [st.open], sksigners, skkeys)
    {
      if keyfile.Some? && signerfile.None? {
        return false;
      }
      PartHasFile(st.open);
      if signerfile.Some? {
        PairsPush(st, signerfile.value, keyfile, sksigners, skkeys);
        sksigners := sksigners + [signerfile.value];
        if keyfile.None? {
          keyfile := signerfile;
        }
        skkeys := skkeys + [keyfile.value];
      }
      if sksigners == [] {
        return false;
      }
      signerfile, keyfile := None, None;
      ok := true;
    }
  }

  /** A part that is not empty holds a signer or a key. */
  lemma {:induction false} PartHasFile(part: seq<Opt>)
    ensures IsPart(part) && part != [] ==> Signers(part) != [] || Keys(part) != []
  {
    if IsPart(part) && part != [] {
      CountsGrow(part, 1);
      One(part[0]);
      assert part[..1] == [part[0]];
    }
  }

  /** The variables after the options seen so far. */
  ghost predicate Ready(s: Signing, seen: seq<Opt>)
    reads s, s.params, s.params.nodes
  {
    s.Valid() && Run(seen) == Some(s.st) && s.params.Valid() && s.params.groups == Groups(AllOf(s.st))
  }

  lemma ReadyAfter(s: Signing, st: State, seen: seq<Opt>, opt: Opt)
    requires Run(seen) == Some(st) && Sane(st) && !opt.Keyopt? && Advance(st, opt) == Some(s.st)
    requires s.Valid() && s.params.Valid() && s.params.groups == Groups(AllOf(st))
    ensures Ready(s, seen + [opt])
  {
    RunMore(seen, opt);
    GroupsOther(st, opt);
  }

  /** Takes -signer, which leaves the parameters alone. */
  method HandleSigner(s: Signing, opt: Opt, ghost seen: seq<Opt>)
    requires Ready(s, seen) && opt.Signer?
    modifies s
    ensures Ready(s, seen + [opt])
  {
    ghost var st := s.st;
    s.OnSigner(opt.file);
    ReadyAfter(s, st, seen, opt);
  }

  /** Takes -inkey, which leaves the parameters alone. */
  method HandleInkey(s: Signing, opt: Opt, ghost seen: seq<Opt>) returns (ok: bool)
    requires Ready(s, seen) && opt.Inkey?
    modifies s
    ensures ok == Run(seen + [opt]).Some?
    ensures ok ==> Ready(s, seen + [opt])
  {
    ghost var st := s.st;
    ok := s.OnInkey(opt.file);
    RunMore(seen, opt);
    if ok {
      ReadyAfter(s, st, seen, opt);
    }
  }

  /** Takes -keyopt. */
  method HandleKeyopt(s: Signing, opt: Opt, ghost seen: seq<Opt>) returns (ok: bool)
    requires Ready(s, seen) && opt.Keyopt?
    modifies s, s.params, s.params.nodes
    ensures ok == Run(seen + [opt]).Some?
    ensures ok ==> Ready(s, seen + [opt])
    ensures fresh(s.params.nodes - old(s.params.nodes))
  {
    ghost var st := s.st;
    RunMore(seen, opt);
    ok := s.OnKeyopt(opt.param);
    if ok {
      GroupsAdd(st, opt.param);
    }
  }

  /** Takes one option. */
  method Handle(s: Signing, opt: Opt, ghost seen: seq<Opt>) returns (ok: bool)
    requires Ready(s, seen)
    modifies s, s.params, s.params.nodes
    ensures ok == Run(seen + [opt]).Some?
    ensures ok ==> Ready(s, seen + [opt])
    ensures fresh(s.params.nodes - old(s.params.nodes))
  {
    if opt.Keyopt? {
      ok := HandleKeyopt(s, opt, seen);
    } else if opt.Inkey? {
      ok := HandleInkey(s, opt, seen);
    } else {
      HandleSigner(s, opt, seen);
      ok := true;
    }
  }

  /** Each block has its signature: by its signer, with its key or the signer itself, and its parameters. */
  ghost predicate Made(jobs: seq<Job>, blocks: seq<seq<Opt>>) {
    && |jobs| == |blocks| && AllBlocks(blocks)
    && forall i :: 0 <= i < |jobs| ==>
         && jobs[i].signer == Signers(blocks[i])[0]
         && jobs[i].key == (if Keys(blocks[i]) == [] then jobs[i].signer else Keys(blocks[i])[0])
         && jobs[i].params == Params(blocks[i])
  }

  /**
    Takes all options and gives the signatures to make. They are refused exactly
    when they cannot be taken apart into blocks. Otherwise they are, with each
    block as long as it can be, and each block gives one signature, in order: by
    its signer, with its key or the signer itself, and with its parameters. So
    all signers, all parameters and all keys are used in order, each once.
   */
  method Sign(opts: seq<Opt>) returns (jobs: Option<seq<Job>>)
    ensures jobs.Some? <==> Decomposes(opts)
    ensures jobs.Some? ==>
              && Blocks(opts).Some?
              && var blocks := Blocks(opts).value;
                 && AllBlocks(blocks) && Greedy(blocks) && Flatten(blocks) == opts && |jobs.value| == |blocks|
                 && (forall i :: 0 <= i < |jobs.value| ==>
                       && jobs.value[i].signer == Signers(blocks[i])[0]
                       && jobs.value[i].key == (if Keys(blocks[i]) == [] then jobs.value[i].signer else Keys(blocks[i])[0])
                       && jobs.value[i].params == Params(blocks[i]))
                 && OwnKeys(jobs.value, blocks) == Keys(opts)
    ensures jobs.Some? ==> JobSigners(jobs.value) == Signers(opts) && JobParams(jobs.value) == Params(opts)
  {
    jobs := SignBlocks(opts);
    AcceptedIff(opts);
    if jobs.Some? {
      BlocksIff(opts, Blocks(opts).value);
      FilesInOrder(jobs.value, Blocks(opts).value);
    }
  }

  /** One signature for each block that the parser has found. */
  method SignBlocks(opts: seq<Opt>) returns (jobs: Option<seq<Job>>)
    ensures jobs.Some? <==> Blocks(opts).Some?
    ensures jobs.Some? ==> Made(jobs.value, Blocks(opts).value)
  {
    var s := new Signing();
    var ok := HandleAll(s, opts);
    if !ok {
      return None;
    }
    jobs := Complete(s, opts);
  }

  /** Finishes the last pair and gives the signatures, if there is one. */
  method Complete(s: Signing, ghost opts: seq<Opt>) returns (jobs: Option<seq<Job>>)
    requires Ready(s, opts)
    modifies s
    ensures jobs.Some? <==> Blocks(opts).Some?
    ensures jobs.Some? ==> Made(jobs.value, Blocks(opts).value)
  {
    var ok := s.Finish();
    if !ok {
      return None;
    }
    var all := MakeJobs(s, Blocks(opts).value);
    jobs := Some(all);
  }

  /** Takes options in order until one is refused. */
  method HandleAll(s: Signing, opts: seq<Opt>) returns (ok: bool)
    requires Ready(s, []) && s.params.nodes == {}
    modifies s, s.params
    ensures ok == Run(opts).Some?
    ensures ok ==> Ready(s, opts)
  {
    ghost var seen: seq<Opt> := [];
    var n := 0;
    while n < |opts|
      invariant 0 <= n <= |opts| && seen == opts[..n] && Ready(s, seen)
      invariant fresh(s.params.nodes)
    {
      TakeMore(opts, n);
      ok := Handle(s, opts[n], seen);
      if !ok {
        RunFails(opts, n + 1);
        return;
      }
      seen, n := opts[..n + 1], n + 1;
    }
    TakeAll(opts);
    ok := true;
  }

  lemma TakeMore(opts: seq<Opt>, n: nat)
    requires n < |opts|
    ensures opts[..n] + [opts[n]] == opts[..n + 1]
  {
  }

  lemma TakeAll(opts: seq<Opt>)
    ensures opts[..|opts|] == opts
  {
  }

  /** Pairs the stacks up, with the parameters of each position. */
  method MakeJobs(s: Signing, ghost blocks: seq<seq<Opt>>) returns (jobs: seq<Job>)
    requires PairsDone(blocks, s.sksigners, s.skkeys) && s.params.Valid() && s.params.groups == Groups(blocks)
    ensures Made(jobs, blocks)
  {
    jobs := [];
    for i := 0 to |s.sksigners|
      invariant |jobs| == i && forall k :: 0 <= k < i ==> jobs[k] == Job(s.sksigners[k], s.skkeys[k], Params(blocks[k]))
    {
      GroupsFind(blocks, i);
      var params := s.params.Find(i);
      jobs := jobs + [Job(s.sksigners[i], s.skkeys[i], params)];
    }
  }

  lemma {:induction false} RunFails(opts: seq<Opt>, n: nat)
    requires n <= |opts| && Run(opts[..n]).None?
    ensures Run(opts).None?
  {
    if n < |opts| {
      var m := |opts| - 1;
      assert opts[..m][..n] == opts[..n];
      RunFails(opts[..m], n);
    } else {
      assert opts[..n] == opts;
    }
  }

  // ---------------------------------------------------------------- signers, keys and parameters in order

  function JobSigners(jobs: seq<Job>): seq<string> {
    if jobs == [] then [] else JobSigners(jobs[..|jobs| - 1]) + [jobs[|jobs| - 1].signer]
  }

  /** The parameters of all signatures, one behind the other. */
  function JobParams(jobs: seq<Job>): seq<string> {
    if jobs == [] then [] else JobParams(jobs[..|jobs| - 1]) + jobs[|jobs| - 1].params
  }

  /** The keys of the signatures whose block was given one. */
  function OwnKeys(jobs: seq<Job>, blocks: seq<seq<Opt>>): seq<string>
    requires |jobs| == |blocks|
    decreases |jobs|
  {
    if jobs == [] then []
    else
      var m := |jobs| - 1;
      OwnKeys(jobs[..m], blocks[..m]) + if Keys(blocks[m]) == [] then [] else [jobs[m].key]
  }

  lemma {:induction false} Concat(a: seq<Opt>, b: seq<Opt>)
    ensures Signers(a + b) == Signers(a) + Signers(b) && Keys(a + b) == Keys(a) + Keys(b) && Params(a + b) == Params(a) + Params(b)
  {
    if b == [] {
      assert a + b == a;
    } else {
      var (n, opt) := (|b| - 1, b[|b| - 1]);
      Concat(a, b[..n]);
      ConcatOne(a, b[..n], opt);
      assert b[..n] + [opt] == b;
    }
  }

  lemma ConcatOne(a: seq<Opt>, b: seq<Opt>, opt: Opt)
    requires Signers(a + b) == Signers(a) + Signers(b) && Keys(a + b) == Keys(a) + Keys(b) && Params(a + b) == Params(a) + Params(b)
    ensures Signers(a + (b + [opt])) == Signers(a) + Signers(b + [opt])
    ensures Keys(a + (b + [opt])) == Keys(a) + Keys(b + [opt])
    ensures Params(a + (b + [opt])) == Params(a) + Params(b + [opt])
  {
    Associate(a, b, [opt]);
    Append(a + b, opt);
    Append(b, opt);
    Associate(Signers(a), Signers(b), if opt.Signer? then [opt.file] else []);
    Associate(Keys(a), Keys(b), if opt.Inkey? then [opt.file] else []);
    Associate(Params(a), Params(b), if opt.Keyopt? then [opt.param] else []);
  }

  lemma MadeLast(jobs: seq<Job>, blocks: seq<seq<Opt>>, m: nat)
    requires Made(jobs, blocks) && |blocks| == m + 1
    ensures Made(jobs[..m], blocks[..m])
    ensures Signers(blocks[m]) == [jobs[m].signer] && Params(blocks[m]) == jobs[m].params
    ensures Keys(blocks[m]) == if Keys(blocks[m]) == [] then [] else [jobs[m].key]
  {
    assert IsBlock(blocks[m]);
  }

  /** The signatures use all signers, all keys and all parameters in order, each once. */
  lemma {:induction false} FilesInOrder(jobs: seq<Job>, blocks: seq<seq<Opt>>)
    requires Made(jobs, blocks)
    ensures JobSigners(jobs) == Signers(Flatten(blocks)) && JobParams(jobs) == Params(Flatten(blocks))
    ensures OwnKeys(jobs, blocks) == Keys(Flatten(blocks))
    decreases |jobs|
  {
    if blocks != [] {
      var m := |blocks| - 1;
      MadeLast(jobs, blocks, m);
      FilesInOrder(jobs[..m], blocks[..m]);
      Concat(Flatten(blocks[..m]), blocks[m]);
    }
  }
}
