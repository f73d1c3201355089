/**
  Extra certificates of a TLS server: options put newer entries in front of a
  doubly linked list, which is walked backwards to get the original order.
 */
module ExtraCerts {

  import opened Options

  datatype Format = PEM | DER

  /** What is known of one certificate. */
  datatype Cert = Cert(
    certfile: Option<string>, keyfile: Option<string>, chainfile: Option<string>, build: bool, certform: Format, keyform: Format)

  /** An option; a format is absent when its text names none. */
  datatype Opt =
    | XCert(file: string)
    | XKey(file: string)
    | XChain(file: string)
    | XChainBuild
    | XCertform(format: Option<Format>)
    | XKeyform(format: Option<Format>)

  // ---------------------------------------------------------------- what the options mean

  /** A new certificate has the formats of the one before it. */
  function NewAfter(certs: seq<Cert>): Cert {
    var n := |certs| - 1;
    if n < 0 then Cert(None, None, None, false, PEM, PEM)
    else Cert(None, None, None, false, certs[n].certform, certs[n].keyform)
  }

  /** Everything in order, everything thrown away, or a format that is refused. */
  datatype Outcome = Ok(certs: seq<Cert>) | Cleared | Refused(certs: seq<Cert>)

  function SetLast(certs: seq<Cert>, c: Cert): seq<Cert>
    requires certs != []
  {
    certs[|certs| - 1 := c]
  }

  /** One option, with the certificates in the order of the command line. */
  function Apply(certs: seq<Cert>, opt: Opt): Outcome {
    var some := if certs == [] then [NewAfter(certs)] else certs;
    var last := some[|some| - 1];
    match opt
    case XCert(file) =>
      var all := if last.certfile.Some? then some + [NewAfter(some)] else some;
      Ok(SetLast(all, all[|all| - 1].(certfile := Some(file))))
    case XKey(file) => if last.keyfile.Some? then Cleared else Ok(SetLast(some, last.(keyfile := Some(file))))
    case XChain(file) => if last.chainfile.Some? then Cleared else Ok(SetLast(some, last.(chainfile := Some(file))))
    case XChainBuild => Ok(SetLast(some, last.(build := true)))
    case XCertform(format) => if format.None? then Refused(some) else Ok(SetLast(some, last.(certform := format.value)))
    case XKeyform(format) => if format.None? then Refused(some) else Ok(SetLast(some, last.(keyform := format.value)))
  }

  /** All options in order, as long as they are accepted. */
  function ApplyAll(opts: seq<Opt>): Option<seq<Cert>> {
    if opts == [] then Some([])
    else
      var before := ApplyAll(opts[..|opts| - 1]);
      if before.None? then None
      else
        match Apply(before.value, opts[|opts| - 1])
        case Ok(certs) => Some(certs)
        case _ => None
  }

  /** The files of the -xcert options, in order. */
  function CertFiles(opts: seq<Opt>): seq<string> {
    if opts == [] then []
    else
      var (before, last) := (CertFiles(opts[..|opts| - 1]), opts[|opts| - 1]);
      if last.XCert? then before + [last.file] else before
  }

  /** The certificate format in force after the options. */
  function CertformAfter(opts: seq<Opt>): Format {
    if opts == [] then PEM
    else
      var last := opts[|opts| - 1];
      if last.XCertform? && last.format.Some? then last.format.value else CertformAfter(opts[..|opts| - 1])
  }

  function KeyformAfter(opts: seq<Opt>): Format {
    if opts == [] then PEM
    else
      var last := opts[|opts| - 1];
      if last.XKeyform? && last.format.Some? then last.format.value else KeyformAfter(opts[..|opts| - 1])
  }

  ghost predicate Named(certs: seq<Cert>, files: seq<string>) {
    |certs| == |files| && forall i :: 0 <= i < |certs| ==> certs[i].certfile == Some(files[i])
  }

  ghost predicate OneUnnamed(certs: seq<Cert>) {
    |certs| == 1 && certs[0].certfile.None?
  }

  /**
    After any accepted options there is one certificate for each -xcert, in
    order; or no -xcert was given and there is at most one, without a name.
   */
  lemma {:induction false} EveryRunNames(opts: seq<Opt>)
    requires ApplyAll(opts).Some?
    ensures var (certs, files) := (ApplyAll(opts).value, CertFiles(opts));
            Named(certs, files) || (OneUnnamed(certs) && files == [])
  {
    if opts != [] {
      var (before, last) := (opts[..|opts| - 1], opts[|opts| - 1]);
      EveryRunNames(before);
      ApplyNames(ApplyAll(before).value, CertFiles(before), last);
    }
  }

  lemma ApplyNames(certs: seq<Cert>, files: seq<string>, opt: Opt)
    requires Apply(certs, opt).Ok? && (Named(certs, files) || (OneUnnamed(certs) && files == []))
    ensures var (certs', files') := (Apply(certs, opt).certs, if opt.XCert? then files + [opt.file] else files);
            Named(certs', files') || (OneUnnamed(certs') && files' == [])
  {
    if certs != [] {
      assert Named(certs, files) ==> certs[|certs| - 1].certfile.Some?;
    }
  }

  /** The last certificate, and with it the next new one, has the formats in force. */
  lemma {:induction false} EveryRunFormats(opts: seq<Opt>)
    requires ApplyAll(opts).Some?
    ensures NewAfter(ApplyAll(opts).value).certform == CertformAfter(opts)
    ensures NewAfter(ApplyAll(opts).value).keyform == KeyformAfter(opts)
  {
    if opts != [] {
      var (before, last) := (opts[..|opts| - 1], opts[|opts| - 1]);
      EveryRunFormats(before);
      ApplyFormats(ApplyAll(before).value, last);
    }
  }

  lemma ApplyFormats(certs: seq<Cert>, opt: Opt)
    requires Apply(certs, opt).Ok?
    ensures var (before, after) := (NewAfter(certs), NewAfter(Apply(certs, opt).certs));
            && after.certform == (if opt.XCertform? then opt.format.value else before.certform)
            && after.keyform == (if opt.XKeyform? then opt.format.value else before.keyform)
  {
  }

  // ---------------------------------------------------------------- what each certificate gets

  /** The certificate that the last of the options is about: the one of the last -xcert, or the first one. */
  function Current(opts: seq<Opt>): nat {
    if CertFiles(opts) == [] then 0 else |CertFiles(opts)| - 1
  }

  /** The options about one certificate, in order. */
  function About(opts: seq<Opt>, i: nat): seq<Opt> {
    if opts == [] then []
    else
      var (before, last) := (opts[..|opts| - 1], opts[|opts| - 1]);
      About(before, i) + if Current(opts) == i then [last] else []
  }

  function KeyFiles(opts: seq<Opt>): seq<string> {
    if opts == [] then []
    else
      var (before, last) := (KeyFiles(opts[..|opts| - 1]), opts[|opts| - 1]);
      if last.XKey? then before + [last.file] else before
  }

  function ChainFiles(opts: seq<Opt>): seq<string> {
    if opts == [] then []
    else
      var (before, last) := (ChainFiles(opts[..|opts| - 1]), opts[|opts| - 1]);
      if last.XChain? then before + [last.file] else before
  }

  predicate Builds(opts: seq<Opt>) {
    exists k :: 0 <= k < |opts| && opts[k].XChainBuild?
  }

  /** At most one file, as it is given. */
  predicate Is(file: Option<string>, files: seq<string>) {
    match file
    case None => files == []
    case Some(f) => files == [f]
  }

  /** A certificate has the key, the chain and the building of chains that the options about it give. */
  ghost predicate HasOwn(c: Cert, own: seq<Opt>) {
    Is(c.keyfile, KeyFiles(own)) && Is(c.chainfile, ChainFiles(own)) && (c.build <==> Builds(own))
  }

  ghost predicate AllHaveOwn(certs: seq<Cert>, opts: seq<Opt>) {
    && (if opts == [] then certs == [] else |certs| == Current(opts) + 1)
    && forall i :: 0 <= i < |certs| ==> HasOwn(certs[i], About(opts, i))
  }

  lemma OwnMore(own: seq<Opt>, opt: Opt)
    ensures KeyFiles(own + [opt]) == KeyFiles(own) + if opt.XKey? then [opt.file] else []
    ensures ChainFiles(own + [opt]) == ChainFiles(own) + if opt.XChain? then [opt.file] else []
    ensures Builds(own + [opt]) <==> Builds(own) || opt.XChainBuild?
  {
    var all := own + [opt];
    assert all[..|own|] == own && all[|own|] == opt;
    if Builds(own) {
      var k :| 0 <= k < |own| && own[k].XChainBuild?;
      assert all[k].XChainBuild?;
    }
  }

  lemma {:induction false} NothingAbout(opts: seq<Opt>, i: nat)
    requires opts == [] || i > Current(opts)
    ensures About(opts, i) == []
  {
    if opts != [] {
      NothingAbout(opts[..|opts| - 1], i);
    }
  }

  /** Whether an option puts a new certificate in front. */
  predicate Opens(certs: seq<Cert>, opt: Opt) {
    certs == [] || (opt.XCert? && certs[|certs| - 1].certfile.Some?)
  }

  /** The options about the certificate that one more option is about. */
  ghost predicate OwnSoFar(certs: seq<Cert>, opt: Opt, own: seq<Opt>) {
    if Opens(certs, opt) then own == [] else HasOwn(certs[|certs| - 1], own)
  }

  /** What one option does to the certificate it is about, when that is accepted: the others stay as they are. */
  lemma ApplyOwn(certs: seq<Cert>, opt: Opt, own: seq<Opt>)
    requires Apply(certs, opt).Ok? && OwnSoFar(certs, opt, own)
    ensures var after := Apply(certs, opt).certs;
            && |after| == |certs| + (if Opens(certs, opt) then 1 else 0) && HasOwn(after[|after| - 1], own + [opt])
            && forall i :: 0 <= i < |after| - 1 ==> after[i] == certs[i]
  {
    OwnMore(own, opt);
    var some := if certs == [] then [NewAfter(certs)] else certs;
    if Opens(certs, opt) {
      assert own == [] && KeyFiles(own) == [] && ChainFiles(own) == [] && !Builds(own);
    }
    assert !opt.XCert? ==> Apply(certs, opt).certs[..|some| - 1] == some[..|some| - 1];
  }

  lemma OneMore(before: seq<Opt>, opt: Opt, i: nat)
    ensures CertFiles(before + [opt]) == CertFiles(before) + if opt.XCert? then [opt.file] else []
    ensures About(before + [opt], i) == About(before, i) + if Current(before + [opt]) == i then [opt] else []
  {
    assert (before + [opt])[..|before|] == before;
  }

  /** Where the certificate stands that one more option is about. */
  lemma Position(before: seq<Opt>, opt: Opt)
    requires ApplyAll(before).Some? && AllHaveOwn(ApplyAll(before).value, before)
    ensures var (certs, at) := (ApplyAll(before).value, Current(before + [opt]));
            at == |certs| - (if Opens(certs, opt) then 0 else 1) && OwnSoFar(certs, opt, About(before, at))
  {
    EveryRunNames(before);
    var (certs, at) := (ApplyAll(before).value, Current(before + [opt]));
    OneMore(before, opt, at);
    if Opens(certs, opt) {
      NothingAbout(before, at);
    }
  }

  /** Only the certificate that one more option is about is another one. */
  lemma OwnAfter(certs: seq<Cert>, before: seq<Opt>, opt: Opt, after: seq<Cert>, at: nat)
    requires AllHaveOwn(certs, before) && at == Current(before + [opt])
    requires |after| == at + 1 <= |certs| + 1 && forall i :: 0 <= i < at ==> after[i] == certs[i]
    requires HasOwn(after[at], About(before, at) + [opt])
    ensures AllHaveOwn(after, before + [opt])
  {
    forall i | 0 <= i < |after|
      ensures HasOwn(after[i], About(before + [opt], i))
    {
      OneMore(before, opt, i);
      if i < at {
        assert About(before, i) + [] == About(before, i);
        assert HasOwn(certs[i], About(before, i));
      }
    }
  }

  /**
    Every certificate has just the key, the chain and the building of chains that
    the options behind its -xcert and before the next one give; what comes before
    the first -xcert is for that one.
   */
  lemma {:induction false} EveryRunOwns(opts: seq<Opt>)
    requires ApplyAll(opts).Some?
    ensures AllHaveOwn(ApplyAll(opts).value, opts)
  {
    if opts != [] {
      var (before, last) := (opts[..|opts| - 1], opts[|opts| - 1]);
      EveryRunOwns(before);
      assert before + [last] == opts;
      var (certs, at) := (ApplyAll(before).value, Current(opts));
      Position(before, last);
      ApplyOwn(certs, last, About(before, at));
      OwnAfter(certs, before, last, ApplyAll(opts).value, at);
    }
  }

  /** Acceptable options for one certificate: at most one key and one chain, and no format that is refused. */
  predicate Acceptable(own: seq<Opt>) {
    && |KeyFiles(own)| <= 1 && |ChainFiles(own)| <= 1
    && forall k :: 0 <= k < |own| ==> own[k] != XCertform(None) && own[k] != XKeyform(None)
  }

  lemma {:induction false} AcceptableFront(own: seq<Opt>, n: nat)
    requires n <= |own| && Acceptable(own)
    ensures Acceptable(own[..n])
  {
    if n < |own| {
      OwnMore(own[..|own| - 1], own[|own| - 1]);
      assert own[..|own| - 1] + [own[|own| - 1]] == own;
      AcceptableFront(own[..|own| - 1], n);
      assert own[..|own| - 1][..n] == own[..n];
    } else {
      assert own[..n] == own;
    }
  }

  /** An option is accepted exactly when it is acceptable for the certificate it is about. */
  lemma ApplyIff(certs: seq<Cert>, opt: Opt, own: seq<Opt>)
    requires Acceptable(own) && OwnSoFar(certs, opt, own)
    ensures Apply(certs, opt).Ok? <==> Acceptable(own + [opt])
  {
    OwnMore(own, opt);
    assert forall k :: 0 <= k < |own| ==> (own + [opt])[k] == own[k];
    assert (own + [opt])[|own|] == opt;
  }

  ghost predicate AllAcceptable(opts: seq<Opt>) {
    forall i: nat :: Acceptable(About(opts, i))
  }

  lemma AcceptableMore(before: seq<Opt>, opt: Opt)
    ensures AllAcceptable(before + [opt]) <==>
            var at := Current(before + [opt]);
            AllAcceptable(before) && Acceptable(About(before, at) + [opt])
  {
    var (opts, at) := (before + [opt], Current(before + [opt]));
    OneMore(before, opt, at);
    if AllAcceptable(opts) {
      forall i: nat
        ensures Acceptable(About(before, i))
      {
        OneMore(before, opt, i);
        AcceptableFront(About(opts, i), |About(before, i)|);
        assert About(opts, i)[..|About(before, i)|] == About(before, i);
      }
    }
    if AllAcceptable(before) && Acceptable(About(before, at) + [opt]) {
      forall i: nat
        ensures Acceptable(About(opts, i))
      {
        OneMore(before, opt, i);
        assert About(before, i) + [] == About(before, i);
      }
    }
  }

  /** Options are accepted if and only if those about each certificate are. */
  lemma {:induction false} AcceptedIff(opts: seq<Opt>)
    ensures ApplyAll(opts).Some? <==> AllAcceptable(opts)
  {
    if opts != [] {
      var (before, last) := (opts[..|opts| - 1], opts[|opts| - 1]);
      assert before + [last] == opts;
      AcceptedIff(before);
      AcceptableMore(before, last);
      if ApplyAll(before).Some? {
        EveryRunOwns(before);
        Position(before, last);
        ApplyIff(ApplyAll(before).value, last, About(before, Current(opts)));
      }
    }
  }

  // ---------------------------------------------------------------- the list

  class Excert {
    var next: Excert?
    var prev: Excert?
    var cert: Cert

    constructor (next: Excert?)
      ensures this.next == next && prev == null && cert == Cert(None, None, None, false, PEM, PEM)
    {
      this.next, prev, cert := next, null, Cert(None, None, None, false, PEM, PEM);
    }
  }

  class ExcertList {
    var head: Excert?
    // the nodes from the head on, and what they hold in the order of the command line
    ghost var list: seq<Excert>
    ghost var certs: seq<Cert>
    ghost var nodes: set<Excert>

    /** `next` and `prev` are inverse to each other along the list, which has no repeats. */
    ghost predicate Linked()
      reads this, nodes
    {
      && (forall i :: 0 <= i < |list| ==> list[i] in nodes)
      && (forall i, j :: 0 <= i < j < |list| ==> list[i] != list[j])
      && head == (if list == [] then null else list[0])
      && (list != [] ==> list[0].prev == null && list[|list| - 1].next == null)
      && (forall i {:trigger list[i].next} :: 0 <= i < |list| - 1 ==> list[i].next == list[i + 1])
      && (forall i {:trigger list[i].prev} :: 0 < i < |list| ==> list[i].prev == list[i - 1])
    }

    /** The newest certificate is at the head. */
    ghost predicate Holds()
      reads this, nodes
    {
      && |certs| == |list|
      && (forall i :: 0 <= i < |list| ==> list[i] in nodes)
      && forall i :: 0 <= i < |list| ==> list[i].cert == certs[|list| - 1 - i]
    }

    ghost predicate Valid()
      reads this, nodes
    {
      Linked() && Holds()
    }

    constructor ()
      ensures Valid() && certs == [] && nodes == {}
    {
      head, list, certs, nodes := null, [], [], {};
    }

    /** Puts a new entry in front, with the formats of the entry that was there. */
    method Prepend()
      requires Valid()
      modifies this, nodes
      ensures Valid() && certs == old(certs) + [NewAfter(old(certs))] && fresh(nodes - old(nodes))
    {
      var exc := new Excert(head);
      if exc.next != null {
        exc.cert := exc.cert.(certform := exc.next.cert.certform, keyform := exc.next.cert.keyform);
        exc.next.prev := exc;
      }
      head := exc;
      certs := certs + [NewAfter(certs)];
      list, nodes := [exc] + list, nodes + {exc};
    }

    /** Changes what the head holds. */
    method SetHead(cert: Cert)
      requires Valid() && certs != []
      modifies head`cert, this`certs
      ensures Valid() && certs == SetLast(old(certs), cert)
    {
      head.cert := cert;
      certs := SetLast(certs, cert);
    }

    /** Frees the entries from the head on: each once. */
    method Free() returns (ghost freed: seq<Excert>)
      requires Valid()
      modifies this`head, this`list, this`certs
      ensures freed == old(list) && Valid() && certs == [] && head == null
    {
      freed := [];
      var exc := head;
      while exc != null
        invariant |freed| <= |list| && freed == list[..|freed|]
        invariant if |freed| < |list| then exc == list[|freed|] else exc == null
        decreases |list| - |freed|
      {
        var curr := exc;
        exc := exc.next;
        freed := freed + [curr];
      }
      head, list, certs := null, [], [];
    }

    /** Takes one option. */
    method Take(opt: Opt) returns (ok: bool)
      requires Valid()
      modifies this, nodes
      ensures Valid() && ok == Apply(old(certs), opt).Ok? && fresh(nodes - old(nodes))
      ensures certs == if Apply(old(certs), opt).Cleared? then [] else Apply(old(certs), opt).certs
    {
      if head == null {
        Prepend();
      }
      match opt {
        case XCert(file) =>
          if head.cert.certfile.Some? {
            Prepend();
          }
          SetHead(head.cert.(certfile := Some(file)));
        case XKey(file) =>
          if head.cert.keyfile.Some? {
            ghost var _ := Free();
            return false;
          }
          SetHead(head.cert.(keyfile := Some(file)));
        case XChain(file) =>
          if head.cert.chainfile.Some? {
            ghost var _ := Free();
            return false;
          }
          SetHead(head.cert.(chainfile := Some(file)));
        case XChainBuild =>
          SetHead(head.cert.(build := true));
        case XCertform(format) =>
          if format.None? {
            return false;
          }
          SetHead(head.cert.(certform := format.value));
        case XKeyform(format) =>
          if format.None? {
            return false;
          }
          SetHead(head.cert.(keyform := format.value));
      }
      ok := true;
    }

    /** Goes to the end of the list and back, using each certificate until one cannot be used. */
    method Walk(usable: Cert -> bool) returns (visited: seq<Cert>, ok: bool)
      requires Valid()
      ensures visited <= certs && (ok ==> visited == certs)
      ensures ok <==> forall i :: 0 <= i < |certs| ==> usable(certs[i])
      ensures !ok ==> visited != [] && !usable(visited[|visited| - 1])
    {
      visited, ok := [], true;
      var exc := head;
      if exc == null {
        return;
      }
      ghost var j := 0;
      while exc.next != null
        invariant 0 <= j < |list| && exc == list[j]
        decreases |list| - j
      {
        exc := exc.next;
        j := j + 1;
      }
      ghost var k := |list| - 1;
      while exc != null
        invariant -1 <= k < |list| && (if k >= 0 then exc == list[k] else exc == null)
        invariant visited == certs[..|list| - 1 - k]
        invariant forall i :: 0 <= i < |list| - 1 - k ==> usable(certs[i])
        decreases k
      {
        visited := visited + [exc.cert];
        if !usable(exc.cert) {
          return visited, false;
        }
        exc := exc.prev;
        k := k - 1;
      }
    }

    /**
      Goes over the list before the files are loaded; a single entry without a
      name is dropped. After options that were accepted no name is missing.
     */
    method DropUnnamed(ghost opts: seq<Opt>)
      requires Valid() && ApplyAll(opts) == Some(certs)
      modifies this`head, this`list, this`certs
      ensures Valid() && Named(certs, CertFiles(opts))
    {
      EveryRunNames(opts);
      var exc := head;
      if exc == null {
        return;
      }
      if exc.cert.certfile.None? && exc.next == null {
        ghost var _ := Free();
        return;
      }
      ghost var j := 0;
      while exc != null
        invariant 0 <= j <= |list| && (if j < |list| then exc == list[j] else exc == null)
        decreases |list| - j
      {
        if exc.cert.certfile.None? {
          // missing filename
          assert false;
        }
        exc := exc.next;
        j := j + 1;
      }
    }
  }

  /** Takes all options in order, into a new list, until one is not accepted. */
  method TakeEach(opts: seq<Opt>) returns (list: ExcertList, ok: bool)
    ensures list.Valid() && ok == ApplyAll(opts).Some?
    ensures ok ==> ApplyAll(opts) == Some(list.certs)
  {
    list := new ExcertList();
    for n := 0 to |opts|
      invariant fresh(list) && fresh(list.nodes) && list.Valid() && ApplyAll(opts[..n]) == Some(list.certs)
    {
      ApplyTake(opts, n);
      ok := list.Take(opts[n]);
      if !ok {
        ApplyFails(opts, n + 1);
        return;
      }
    }
    assert opts[..|opts|] == opts;
    ok := true;
  }

  /**
    Takes the options of a command line: accepted exactly when those about each
    certificate are acceptable, and then the list holds what they give it.
   */
  method TakeAll(opts: seq<Opt>) returns (list: ExcertList, ok: bool)
    ensures list.Valid() && ok == ApplyAll(opts).Some?
    ensures ok ==> ApplyAll(opts) == Some(list.certs) && AllHaveOwn(list.certs, opts)
    ensures ok <==> AllAcceptable(opts)
  {
    list, ok := TakeEach(opts);
    AcceptedIff(opts);
    if ok {
      EveryRunOwns(opts);
    }
  }

  lemma ApplyTake(opts: seq<Opt>, n: nat)
    requires n < |opts| && ApplyAll(opts[..n]).Some?
    ensures ApplyAll(opts[..n + 1]) ==
            match Apply(ApplyAll(opts[..n]).value, opts[n])
            case Ok(certs) => Some(certs)
            case _ => None
  {
    assert opts[..n + 1][..n] == opts[..n];
  }

  lemma {:induction false} ApplyFails(opts: seq<Opt>, n: nat)
    requires n <= |opts| && ApplyAll(opts[..n]).None?
    ensures ApplyAll(opts).None?
  {
    if n < |opts| {
      assert opts[..|opts| - 1][..n] == opts[..n];
      ApplyFails(opts[..|opts| - 1], n);
    } else {
      assert opts[..n] == opts;
    }
  }
}
