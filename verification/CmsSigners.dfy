/** How `cms` reads `-signer`, `-inkey` and `-keyopt` in any order: two parallel lists of
    files, and a list of key parameters keyed by position that is read back when signing. */
module CmsSigners {
  import opened CText
  import opened Lists

  datatype Op = NoOp | Encrypt | SignOp | OtherOp

  datatype Arg = Signer(file: string) | Inkey(file: string) | Keyopt(opt: string) | Recip(file: string) | Select(op: Op)

  datatype KeyParam = KeyParam(idx: int, opts: seq<string>)

  // ----- What a command line describes -----

  /** A signer as far as it is described: its certificate file and its key file. */
  datatype Desc = Desc(signer: Option<string>, key: Option<string>)

  predicate Names(a: Arg) {
    a.Signer? || a.Inkey?
  }

  function One(a: Arg): Desc
    requires Names(a)
  {
    if a.Signer? then Desc(Some(a.file), None) else Desc(None, Some(a.file))
  }

  function Both(a: Arg, b: Arg): Desc
    requires Names(a) && Names(b)
  {
    if a.Signer? then Desc(Some(a.file), Some(b.file)) else Desc(Some(b.file), Some(a.file))
  }

  predicate AllName(toks: seq<Arg>) {
    forall i :: 0 <= i < |toks| ==> Names(toks[i])
  }

  /** The descriptions: a `-signer` and an `-inkey` next to each other, in either order,
      belong together; reading goes from the left. */
  function Descs(toks: seq<Arg>): (ds: seq<Desc>)
    requires AllName(toks)
    ensures toks != [] ==> ds != []
  {
    if toks == [] then []
    else if |toks| >= 2 && toks[0].Signer? != toks[1].Signer? then [Both(toks[0], toks[1])] + Descs(toks[2..])
    else [One(toks[0])] + Descs(toks[1..])
  }

  function Toks(args: seq<Arg>): (toks: seq<Arg>)
    ensures AllName(toks)
  {
    if args == [] then [] else
      Toks(args[..|args| - 1]) + if Names(args[|args| - 1]) then [args[|args| - 1]] else []
  }

  /** The signers described by a command line. */
  function Described(args: seq<Arg>): seq<Desc> {
    Descs(Toks(args))
  }

  /** The key options given while signer i was the one being described. */
  function OptsFor(args: seq<Arg>, i: nat): seq<string> {
    if args == [] then [] else
      var front, a := args[..|args| - 1], args[|args| - 1];
      OptsFor(front, i) + if a.Keyopt? && |Described(front)| == i + 1 then [a.opt] else []
  }

  function OperationOf(args: seq<Arg>): Op {
    if args == [] then NoOp
    else if args[|args| - 1].Select? then args[|args| - 1].op
    else OperationOf(args[..|args| - 1])
  }

  function Recipients(args: seq<Arg>): nat {
    if args == [] then 0 else
      var front, a := args[..|args| - 1], args[|args| - 1];
      Recipients(front) + if a.Recip? && OperationOf(front) == Encrypt then 1 else 0
  }

  predicate AllSigned(ds: seq<Desc>) {
    forall i :: 0 <= i < |ds| ==> ds[i].signer.Some?
  }

  /** The position a key option is filed under: that of the last recipient while encryption
      is selected, otherwise that of the signer being described. */
  function KeyIndex(seen: seq<Arg>): int {
    (if OperationOf(seen) == Encrypt then Recipients(seen) else |Described(seen)|) - 1
  }

  /** Every key option is filed under the signer being described. It is when none is given
      while encryption is selected. */
  predicate OptsFiledRight(args: seq<Arg>) {
    forall k :: 0 <= k < |args| && args[k].Keyopt? ==>
      OperationOf(args[..k]) != Encrypt || Recipients(args[..k]) == |Described(args[..k])|
  }

  predicate OptsHaveKey(args: seq<Arg>) {
    forall k :: 0 <= k < |args| && args[k].Keyopt? ==> KeyIndex(args[..k]) >= 0
  }

  /** A signing command line is accepted when something is described, every description has
      a signer, and every key option has a key to apply to. */
  predicate Accepted(args: seq<Arg>) {
    OperationOf(args) == SignOp && Described(args) != [] && AllSigned(Described(args)) && OptsHaveKey(args)
  }

  // ----- Reading one more argument -----

  function Fill(d: Desc, a: Arg): Desc
    requires Names(a)
  {
    if a.Signer? then d.(signer := Some(a.file)) else d.(key := Some(a.file))
  }

  predicate Open(d: Desc, a: Arg) {
    if a.Signer? then d.signer.None? else d.key.None?
  }

  /** One more name completes the last description or starts a new one. */
  function AddName(ds: seq<Desc>, a: Arg): seq<Desc>
    requires Names(a)
  {
    var last := |ds| - 1;
    if ds != [] && Open(ds[last], a) then ds[..last] + [Fill(ds[last], a)] else ds + [One(a)]
  }

  lemma {:induction false} AddNameCons(d: Desc, ds: seq<Desc>, a: Arg)
    requires Names(a) && (ds == [] ==> !Open(d, a))
    ensures AddName([d] + ds, a) == [d] + AddName(ds, a)
  {
    if ds != [] {
      assert ([d] + ds)[..|ds|] == [d] + ds[..|ds| - 1];
    }
  }

  lemma {:induction false} DescsPair(a: Arg, b: Arg, rest: seq<Arg>)
    requires Names(a) && Names(b) && AllName(rest) && a.Signer? != b.Signer?
    ensures Descs([a, b] + rest) == [Both(a, b)] + Descs(rest)
  {
    assert ([a, b] + rest)[2..] == rest;
  }

  lemma {:induction false} DescsSingle(a: Arg, rest: seq<Arg>)
    requires Names(a) && AllName(rest) && (rest != [] ==> rest[0].Signer? == a.Signer?)
    ensures Descs([a] + rest) == [One(a)] + Descs(rest)
  {
    assert ([a] + rest)[1..] == rest;
  }

  lemma {:induction false} DescsSnoc(toks: seq<Arg>, a: Arg)
    requires AllName(toks) && Names(a)
    ensures Descs(toks + [a]) == AddName(Descs(toks), a)
    decreases |toks|
  {
    if toks == [] {
      DescsSingle(a, []);
      assert toks + [a] == [a] + [];
    } else if |toks| == 1 {
      DescsSnocOne(toks[0], a);
      assert toks == [toks[0]];
    } else if toks[0].Signer? != toks[1].Signer? {
      var t, u, rest := toks[0], toks[1], toks[2..];
      DescsSnoc(rest, a);
      assert toks == [t, u] + rest && toks + [a] == [t, u] + (rest + [a]);
      DescsPair(t, u, rest);
      DescsPair(t, u, rest + [a]);
      AddNameCons(Both(t, u), Descs(rest), a);
    } else {
      var t, rest := toks[0], toks[1..];
      DescsSnoc(rest, a);
      assert toks == [t] + rest && toks + [a] == [t] + (rest + [a]);
      DescsSingle(t, rest);
      DescsSingle(t, rest + [a]);
      AddNameCons(One(t), Descs(rest), a);
    }
  }

  lemma {:induction false} DescsSnocOne(t: Arg, a: Arg)
    requires Names(t) && Names(a)
    ensures Descs([t] + [a]) == AddName(Descs([t]), a)
  {
    assert [t] == [t] + [];
    DescsSingle(t, []);
    if t.Signer? != a.Signer? {
      assert [t] + [a] == [t, a] + [];
      DescsPair(t, a, []);
    } else {
      assert [a] == [a] + [];
      DescsSingle(a, []);
      DescsSingle(t, [a]);
    }
  }

  lemma {:induction false} DescsNameSomething(toks: seq<Arg>)
    requires AllName(toks)
    ensures forall i :: 0 <= i < |Descs(toks)| ==> Descs(toks)[i].signer.Some? || Descs(toks)[i].key.Some?
    decreases |toks|
  {
    if toks != [] {
      DescsNameSomething(if |toks| >= 2 && toks[0].Signer? != toks[1].Signer? then toks[2..] else toks[1..]);
    }
  }

  // ----- The files are used in order -----

  function SignerFn(): Desc -> Option<string> { (d: Desc) => d.signer }
  function KeyFn(): Desc -> Option<string> { (d: Desc) => d.key }

  function SignerArg(): Arg -> Option<string> { (a: Arg) => if a.Signer? then Some(a.file) else None }
  function InkeyArg(): Arg -> Option<string> { (a: Arg) => if a.Inkey? then Some(a.file) else None }

  /** The first names of a list, and the description they make. */
  ghost predicate Head(toks: seq<Arg>, d: Desc) {
    AllName(toks) && ((|toks| == 1 && d == One(toks[0]))
                      || (|toks| == 2 && toks[0].Signer? != toks[1].Signer? && d == Both(toks[0], toks[1])))
  }

  lemma {:induction false} DescsUse(toks: seq<Arg>, f: Desc -> Option<string>, g: Arg -> Option<string>)
    requires AllName(toks) && forall t, d | Head(t, d) :: Collect([d], f) == Collect(t, g)
    ensures Collect(Descs(toks), f) == Collect(toks, g)
    decreases |toks|
  {
    if toks != [] {
      var n := if |toks| >= 2 && toks[0].Signer? != toks[1].Signer? then 2 else 1;
      var d, rest := Descs(toks)[0], toks[n..];
      DescsUse(rest, f, g);
      assert Head(toks[..n], d);
      assert toks == toks[..n] + rest && Descs(toks) == [d] + Descs(rest);
      CollectConcat([d], Descs(rest), f);
      CollectConcat(toks[..n], rest, g);
    }
  }

  lemma {:induction false} CollectHead(toks: seq<Arg>, d: Desc, f: Desc -> Option<string>, g: Arg -> Option<string>)
    requires Head(toks, d)
    requires |toks| == 1 ==> f(d) == g(toks[0])
    requires |toks| == 2 ==> (g(toks[0]) == f(d) && g(toks[1]) == None) || (g(toks[1]) == f(d) && g(toks[0]) == None)
    ensures Collect([d], f) == Collect(toks, g)
  {
    CollectOne(d, f);
    CollectOne(toks[0], g);
    if |toks| == 2 {
      assert toks == [toks[0]] + [toks[1]];
      CollectConcat([toks[0]], [toks[1]], g);
      CollectOne(toks[1], g);
    } else {
      assert toks == [toks[0]];
    }
  }

  /** The descriptions hold the `-signer` and the `-inkey` arguments, each once, in order. */
  lemma {:induction false} DescsUseFiles(toks: seq<Arg>)
    requires AllName(toks)
    ensures Collect(Descs(toks), SignerFn()) == Collect(toks, SignerArg())
    ensures Collect(Descs(toks), KeyFn()) == Collect(toks, InkeyArg())
  {
    forall t, d | Head(t, d) ensures Collect([d], SignerFn()) == Collect(t, SignerArg()) {
      CollectHead(t, d, SignerFn(), SignerArg());
    }
    DescsUse(toks, SignerFn(), SignerArg());
    forall t, d | Head(t, d) ensures Collect([d], KeyFn()) == Collect(t, InkeyArg()) {
      CollectHead(t, d, KeyFn(), InkeyArg());
    }
    DescsUse(toks, KeyFn(), InkeyArg());
  }

  lemma {:induction false} ToksKeepNames(args: seq<Arg>, f: Arg -> Option<string>)
    requires forall a :: !Names(a) ==> f(a).None?
    ensures Collect(Toks(args), f) == Collect(args, f)
  {
    if args != [] {
      var front, a := args[..|args| - 1], args[|args| - 1];
      ToksKeepNames(front, f);
      if Names(a) {
        CollectConcat(Toks(front), [a], f);
        CollectOne(a, f);
      } else {
        assert Toks(args) == Toks(front);
      }
    }
  }

  /** The lists built from a command line: as many keys as signers; the signers are the
      `-signer` arguments in order; the `-inkey` arguments are the keys of the signers
      described with one, in order; any other signer is its own key. */
  lemma {:induction false} ListsOfAccepted(args: seq<Arg>)
    requires AllSigned(Described(args))
    ensures Collect(Described(args), SignerFn()) == Collect(args, SignerArg())
    ensures Collect(Described(args), KeyFn()) == Collect(args, InkeyArg())
    ensures SignersOf(Described(args)) == Collect(args, SignerArg())
  {
    DescsUseFiles(Toks(args));
    ToksKeepNames(args, SignerArg());
    ToksKeepNames(args, InkeyArg());
    SignersAreCollected(Described(args));
  }

  function SignersOf(ds: seq<Desc>): (r: seq<string>)
    requires AllSigned(ds)
    ensures |r| == |ds| && forall i :: 0 <= i < |ds| ==> r[i] == ds[i].signer.value
  {
    seq(|ds|, i requires 0 <= i < |ds| => ds[i].signer.value)
  }

  function KeysOf(ds: seq<Desc>): (r: seq<string>)
    requires AllSigned(ds)
    ensures |r| == |ds|
    ensures forall i :: 0 <= i < |ds| ==> r[i] == if ds[i].key.Some? then ds[i].key.value else ds[i].signer.value
  {
    seq(|ds|, i requires 0 <= i < |ds| => if ds[i].key.Some? then ds[i].key.value else ds[i].signer.value)
  }

  lemma {:induction false} SignersAreCollected(ds: seq<Desc>)
    requires AllSigned(ds)
    ensures Collect(ds, SignerFn()) == SignersOf(ds)
  {
    if ds != [] {
      var last := |ds| - 1;
      SignersAreCollected(ds[..last]);
      assert SignersOf(ds) == SignersOf(ds[..last]) + [ds[last].signer.value];
    }
  }

  // ----- The option loop -----

  /** The pending files and the lists stand for the descriptions: all but the last are in the
      lists, the last is pending. */
  ghost predicate Pending(ds: seq<Desc>, signerfile: Option<string>, keyfile: Option<string>,
                          sksigners: seq<string>, skkeys: seq<string>) {
    if ds == [] then signerfile.None? && keyfile.None? && sksigners == [] && skkeys == []
    else
      var n := |ds| - 1;
      AllSigned(ds[..n]) && signerfile == ds[n].signer && keyfile == ds[n].key
      && sksigners == SignersOf(ds[..n]) && skkeys == KeysOf(ds[..n])
  }

  predicate Increasing(ps: seq<KeyParam>) {
    forall i, j :: 0 <= i < j < |ps| ==> ps[i].idx < ps[j].idx
  }

  /** The first entry for position i. */
  function FindParam(ps: seq<KeyParam>, i: int): Option<seq<string>> {
    if ps == [] then None else
      var last := |ps| - 1;
      match FindParam(ps[..last], i)
      case Some(opts) => Some(opts)
      case None => if ps[last].idx == i then Some(ps[last].opts) else None
  }

  function OptsOf(ps: seq<KeyParam>, i: int): seq<string> {
    match FindParam(ps, i) case Some(opts) => opts case None => []
  }

  lemma {:induction false} NoParamAt(ps: seq<KeyParam>, i: int)
    requires forall k :: 0 <= k < |ps| ==> ps[k].idx != i
    ensures FindParam(ps, i) == None
  {
    if ps != [] { NoParamAt(ps[..|ps| - 1], i); }
  }

  lemma {:induction false} FoundParamSticks(ps: seq<KeyParam>, n: nat, i: int)
    requires n <= |ps| && FindParam(ps[..n], i).Some?
    ensures FindParam(ps, i) == FindParam(ps[..n], i)
  {
    if n < |ps| {
      assert ps[..|ps| - 1][..n] == ps[..n];
      FoundParamSticks(ps[..|ps| - 1], n, i);
    } else {
      assert ps[..n] == ps;
    }
  }

  ghost predicate InRange(ps: seq<KeyParam>, n: nat) {
    Increasing(ps) && forall k :: 0 <= k < |ps| ==> 0 <= ps[k].idx < n
  }

  ghost predicate SameOpts(ps: seq<KeyParam>, args: seq<Arg>, i: nat) {
    OptsOf(ps, i) == OptsFor(args, i)
  }

  /** The list is strictly increasing by position, so nothing in it is shadowed, and holds
      exactly the options given for each signer. */
  ghost predicate ParamsMatch(ps: seq<KeyParam>, args: seq<Arg>) {
    InRange(ps, |Described(args)|) && forall i :: SameOpts(ps, args, i)
  }

  /** Adding an option for position i at the end of the list. */
  function AddOpt(ps: seq<KeyParam>, i: int, opt: string): seq<KeyParam> {
    if ps == [] || ps[|ps| - 1].idx != i then ps + [KeyParam(i, [opt])]
    else ps[|ps| - 1 := ps[|ps| - 1].(opts := ps[|ps| - 1].opts + [opt])]
  }

  /** The parameter list after a command line. */
  function ParamsAfter(args: seq<Arg>): seq<KeyParam> {
    if args == [] then [] else
      var front, a := args[..|args| - 1], args[|args| - 1];
      if a.Keyopt? then AddOpt(ParamsAfter(front), KeyIndex(front), a.opt) else ParamsAfter(front)
  }

  lemma {:induction false} AddOptInRange(ps: seq<KeyParam>, i: nat, opt: string)
    requires InRange(ps, i + 1)
    ensures InRange(AddOpt(ps, i, opt), i + 1)
  {
  }

  /** More options for the last parameter, whose position no earlier one has. */
  lemma {:induction false} AddToLast(front: seq<KeyParam>, i: int, opts: seq<string>, opt: string, j: int)
    requires FindParam(front, i) == None
    ensures OptsOf(front + [KeyParam(i, opts + [opt])], j)
            == OptsOf(front + [KeyParam(i, opts)], j) + if j == i then [opt] else []
  {
    FindSnoc(front, KeyParam(i, opts), j);
    FindSnoc(front, KeyParam(i, opts + [opt]), j);
  }

  lemma {:induction false} AddNew(ps: seq<KeyParam>, i: int, opt: string, j: int)
    requires FindParam(ps, i) == None
    ensures OptsOf(ps + [KeyParam(i, [opt])], j) == OptsOf(ps, j) + if j == i then [opt] else []
  {
    FindSnoc(ps, KeyParam(i, [opt]), j);
  }

  /** No parameter but the last has the position. */
  ghost predicate OnlyLast(ps: seq<KeyParam>, i: int) {
    forall k :: 0 <= k < |ps| && ps[k].idx == i ==> k == |ps| - 1
  }

  lemma {:induction false} AddOptLast(ps: seq<KeyParam>, i: int, opt: string, j: int)
    requires OnlyLast(ps, i)
    ensures OptsOf(AddOpt(ps, i, opt), j) == OptsOf(ps, j) + if j == i then [opt] else []
  {
    var last := |ps| - 1;
    if ps == [] || ps[last].idx != i {
      NoParamAt(ps, i);
      AddNew(ps, i, opt, j);
    } else {
      var front, opts := ps[..last], ps[last].opts;
      NoParamAt(front, i);
      assert ps == front + [KeyParam(i, opts)] && AddOpt(ps, i, opt) == front + [KeyParam(i, opts + [opt])];
      AddToLast(front, i, opts, opt, j);
    }
  }

  lemma {:induction false} AddOptAdds(ps: seq<KeyParam>, i: nat, opt: string, j: int)
    requires InRange(ps, i + 1)
    ensures OptsOf(AddOpt(ps, i, opt), j) == OptsOf(ps, j) + if j == i then [opt] else []
  {
    assert ps != [] ==> ps[|ps| - 1].idx <= i;
    AddOptLast(ps, i, opt, j);
  }

  lemma {:induction false} FindSnoc(ps: seq<KeyParam>, p: KeyParam, j: int)
    ensures FindParam(ps + [p], j) == match FindParam(ps, j)
                                      case Some(opts) => Some(opts)
                                      case None => if p.idx == j then Some(p.opts) else None
  {
    assert (ps + [p])[..|ps|] == ps;
  }

  lemma {:induction false} ParamsStep(ps: seq<KeyParam>, args: seq<Arg>, a: Arg)
    requires ParamsMatch(ps, args) && !a.Keyopt?
    ensures ParamsMatch(ps, args + [a])
  {
    DescribedStep(args, a);
    forall j ensures SameOpts(ps, args + [a], j) {
      assert SameOpts(ps, args, j);
      OptsForMore(args, a, j);
    }
  }

  lemma {:induction false} SameOptsAdd(ps: seq<KeyParam>, args: seq<Arg>, opt: string, j: nat)
    requires Described(args) != [] && InRange(ps, |Described(args)|) && SameOpts(ps, args, j)
    ensures SameOpts(AddOpt(ps, |Described(args)| - 1, opt), args + [Keyopt(opt)], j)
  {
    AddOptAdds(ps, |Described(args)| - 1, opt, j);
    OptsForMore(args, Keyopt(opt), j);
  }

  lemma {:induction false} ParamsAdd(ps: seq<KeyParam>, args: seq<Arg>, opt: string)
    requires ParamsMatch(ps, args) && Described(args) != []
    ensures ParamsMatch(AddOpt(ps, |Described(args)| - 1, opt), args + [Keyopt(opt)])
  {
    var i, more := |Described(args)| - 1, args + [Keyopt(opt)];
    DescribedStep(args, Keyopt(opt));
    AddOptInRange(ps, i, opt);
    forall j ensures SameOpts(AddOpt(ps, i, opt), more, j) {
      assert SameOpts(ps, args, j);
      SameOptsAdd(ps, args, opt, j);
    }
  }

  /** How one more argument changes what is described. */
  lemma {:induction false} DescribedStep(args: seq<Arg>, a: Arg)
    ensures var ds := Described(args);
            Described(args + [a])
            == if Names(a) then AddName(ds, a) else ds
  {
    assert (args + [a])[..|args|] == args;
    if Names(a) {
      DescsSnoc(Toks(args), a);
    } else {
      assert Toks(args + [a]) == Toks(args);
    }
  }

  lemma {:induction false} KeyIndexOfPrefix(args: seq<Arg>, a: Arg)
    ensures OptsHaveKey(args + [a]) <==> OptsHaveKey(args) && (a.Keyopt? ==> KeyIndex(args) >= 0)
  {
    var more := args + [a];
    assert forall k :: 0 <= k < |args| ==> more[..k] == args[..k] && more[k] == args[k];
    assert more[..|args|] == args && more[|args|] == a;
  }

  lemma {:induction false} FiledRightPrefix(args: seq<Arg>, a: Arg)
    requires OptsFiledRight(args + [a])
    ensures OptsFiledRight(args)
    ensures a.Keyopt? ==> OperationOf(args) != Encrypt || Recipients(args) == |Described(args)|
  {
    var more := args + [a];
    assert forall k :: 0 <= k < |args| ==> more[..k] == args[..k] && more[k] == args[k];
    assert more[..|args|] == args && more[|args|] == a;
  }

  lemma {:induction false} ParamsMore(args: seq<Arg>, a: Arg)
    ensures ParamsAfter(args + [a])
            == if a.Keyopt? then AddOpt(ParamsAfter(args), KeyIndex(args), a.opt) else ParamsAfter(args)
  {
    assert (args + [a])[..|args|] == args;
  }

  lemma {:induction false} ParamsNext(ps: seq<KeyParam>, args: seq<Arg>, a: Arg)
    requires ParamsMatch(ps, args) && (a.Keyopt? ==> Described(args) != [])
    ensures ParamsMatch(if a.Keyopt? then AddOpt(ps, |Described(args)| - 1, a.opt) else ps, args + [a])
  {
    if a.Keyopt? { ParamsAdd(ps, args, a.opt); } else { ParamsStep(ps, args, a); }
  }

  lemma {:induction false} ParamsRightNext(args: seq<Arg>, a: Arg)
    requires ParamsMatch(ParamsAfter(args), args)
    requires a.Keyopt? ==> KeyIndex(args) == |Described(args)| - 1 >= 0
    ensures ParamsMatch(ParamsAfter(args + [a]), args + [a])
  {
    ParamsMore(args, a);
    ParamsNext(ParamsAfter(args), args, a);
  }

  /** Each option is applied to exactly the signer being described when it was given, in
      particular if none is given while encryption is selected. */
  lemma {:induction false} ParamsAreRight(args: seq<Arg>)
    requires OptsFiledRight(args) && OptsHaveKey(args)
    ensures ParamsMatch(ParamsAfter(args), args)
  {
    if args != [] {
      var front, a := args[..|args| - 1], args[|args| - 1];
      assert args == front + [a];
      KeyIndexOfPrefix(front, a);
      FiledRightPrefix(front, a);
      ParamsAreRight(front);
      ParamsRightNext(front, a);
    }
  }

  // ----- The other direction -----

  /** Options given for a signer mean that the signer is described. */
  lemma {:induction false} OptsAreDescribed(args: seq<Arg>, i: nat)
    requires OptsFor(args, i) != []
    ensures i < |Described(args)|
  {
    var front, a := args[..|args| - 1], args[|args| - 1];
    assert args == front + [a];
    DescribedStep(front, a);
    if OptsFor(front, i) != [] { OptsAreDescribed(front, i); }
  }

  /** Options found for a position are in some parameter. */
  lemma {:induction false} OptsAreFiled(ps: seq<KeyParam>, i: int)
    requires OptsOf(ps, i) != []
    ensures exists k :: 0 <= k < |ps| && ps[k].idx == i
  {
    var last := |ps| - 1;
    if FindParam(ps[..last], i).Some? {
      OptsAreFiled(ps[..last], i);
      var k :| 0 <= k < last && ps[..last][k].idx == i;
      assert ps[k].idx == i;
    }
  }

  /** Positions are never negative when every option has a key. */
  lemma {:induction false} ParamsNotNegative(args: seq<Arg>)
    requires OptsHaveKey(args)
    ensures forall k :: 0 <= k < |ParamsAfter(args)| ==> ParamsAfter(args)[k].idx >= 0
  {
    if args != [] {
      var front, a := args[..|args| - 1], args[|args| - 1];
      assert args == front + [a];
      KeyIndexOfPrefix(front, a);
      ParamsMore(front, a);
      ParamsNotNegative(front);
    }
  }

  /** If the list still increases after an option is filed, it did before, and no position in it is
      above the new one. */
  lemma {:induction false} AddedLast(ps: seq<KeyParam>, i: nat, opt: string)
    requires Increasing(AddOpt(ps, i, opt)) && forall k :: 0 <= k < |ps| ==> ps[k].idx >= 0
    ensures InRange(ps, i + 1) && InRange(AddOpt(ps, i, opt), i + 1)
  {
    var more := AddOpt(ps, i, opt);
    assert more[|more| - 1].idx == i;
    assert forall k :: 0 <= k < |ps| ==> ps[k].idx == more[k].idx;
  }

  /** Increasing, with the right options for each signer. */
  ghost predicate Sorted(ps: seq<KeyParam>, args: seq<Arg>) {
    Increasing(ps) && forall i :: SameOpts(ps, args, i)
  }

  /** If everything is right after one more option, the option was filed under the signer being
      described: the new position is the highest filed, and the signer the highest described. */
  lemma {:induction false} LastFiledRight(ps: seq<KeyParam>, f: nat, args: seq<Arg>, opt: string)
    requires forall k :: 0 <= k < |ps| ==> ps[k].idx >= 0
    requires Sorted(AddOpt(ps, f, opt), args + [Keyopt(opt)])
    ensures f == |Described(args)| - 1
  {
    var more, ps', d := args + [Keyopt(opt)], AddOpt(ps, f, opt), |Described(args)| - 1;
    AddedLast(ps, f, opt);
    AddOptAdds(ps, f, opt, f);
    DescribedStep(args, Keyopt(opt));
    assert SameOpts(ps', more, f);
    OptsAreDescribed(more, f);
    if f < d {
      OptsForMore(args, Keyopt(opt), d);
      assert SameOpts(ps', more, d);
      OptsAreFiled(ps', d);
    }
  }

  lemma {:induction false} RightBefore(ps: seq<KeyParam>, args: seq<Arg>, opt: string)
    requires Described(args) != [] && forall k :: 0 <= k < |ps| ==> ps[k].idx >= 0
    requires Sorted(AddOpt(ps, |Described(args)| - 1, opt), args + [Keyopt(opt)])
    ensures Sorted(ps, args)
  {
    var d := |Described(args)| - 1;
    AddedLast(ps, d, opt);
    forall i: nat ensures SameOpts(ps, args, i) {
      assert SameOpts(AddOpt(ps, d, opt), args + [Keyopt(opt)], i);
      AddOptAdds(ps, d, opt, i);
      OptsForMore(args, Keyopt(opt), i);
      CancelLast(OptsOf(ps, i), OptsFor(args, i), if i == d then [opt] else []);
    }
  }

  lemma {:induction false} CancelLast(a: seq<string>, b: seq<string>, x: seq<string>)
    requires a + x == b + x
    ensures a == b
  {
    assert |a + x| == |b + x|;
    assert a == (a + x)[..|a|] && b == (b + x)[..|a|];
  }

  lemma {:induction false} RightBeforeOther(ps: seq<KeyParam>, args: seq<Arg>, a: Arg)
    requires !a.Keyopt? && Sorted(ps, args + [a])
    ensures Sorted(ps, args)
  {
    forall i ensures SameOpts(ps, args, i) {
      assert SameOpts(ps, args + [a], i);
      OptsForMore(args, a, i);
    }
  }

  lemma {:induction false} FiledRightNext(args: seq<Arg>, a: Arg)
    requires OptsFiledRight(args) && (a.Keyopt? ==> KeyIndex(args) == |Described(args)| - 1)
    ensures OptsFiledRight(args + [a])
  {
    var more := args + [a];
    assert forall k :: 0 <= k < |args| ==> more[..k] == args[..k] && more[k] == args[k];
    assert more[..|args|] == args && more[|args|] == a;
  }

  lemma {:induction false} RightMeansFiledRight(args: seq<Arg>)
    requires OptsHaveKey(args) && Sorted(ParamsAfter(args), args)
    ensures OptsFiledRight(args)
  {
    if args != [] {
      var front, a := args[..|args| - 1], args[|args| - 1];
      assert args == front + [a];
      KeyIndexOfPrefix(front, a);
      ParamsMore(front, a);
      ParamsNotNegative(front);
      if a.Keyopt? {
        LastFiledRight(ParamsAfter(front), KeyIndex(front), front, a.opt);
        RightBefore(ParamsAfter(front), front, a.opt);
      } else {
        RightBeforeOther(ParamsAfter(front), front, a);
      }
      RightMeansFiledRight(front);
      FiledRightNext(front, a);
    }
  }

  /** Over a whole command line whose options all have a key: the parameters increase by position
      and hold for each signer exactly its options if and only if each option was filed under the
      signer being described when it was given. */
  lemma {:induction false} ParamsAreRightExactly(args: seq<Arg>)
    requires OptsHaveKey(args)
    ensures ParamsMatch(ParamsAfter(args), args) <==> OptsFiledRight(args)
  {
    if OptsFiledRight(args) {
      ParamsAreRight(args);
    } else if ParamsMatch(ParamsAfter(args), args) {
      RightMeansFiledRight(args);
    }
  }

  lemma {:induction false} MisfiledFind(ps: seq<KeyParam>, r: int, opt: string, d: int)
    requires r != d
    ensures FindParam(AddOpt(ps, r, opt), d) == FindParam(ps, d)
  {
    var last := |ps| - 1;
    if ps == [] || ps[last].idx != r {
      FindSnoc(ps, KeyParam(r, [opt]), d);
    } else {
      assert AddOpt(ps, r, opt)[..last] == ps[..last];
    }
  }

  lemma {:induction false} OneMore(args: seq<Arg>, a: Arg)
    ensures OperationOf(args + [a]) == if a.Select? then a.op else OperationOf(args)
    ensures Recipients(args + [a]) == Recipients(args) + if a.Recip? && OperationOf(args) == Encrypt then 1 else 0
  {
    assert (args + [a])[..|args|] == args;
  }

  lemma {:induction false} OptsForMore(args: seq<Arg>, a: Arg, i: nat)
    ensures OptsFor(args + [a], i) == OptsFor(args, i) + if a.Keyopt? && |Described(args)| == i + 1 then [a.opt] else []
  {
    assert (args + [a])[..|args|] == args;
  }

  /** What one more argument does to everything read from a command line. */
  ghost predicate Next(args: seq<Arg>, a: Arg, more: seq<Arg>) {
    && OperationOf(more) == (if a.Select? then a.op else OperationOf(args))
    && Recipients(more) == Recipients(args) + (if a.Recip? && OperationOf(args) == Encrypt then 1 else 0)
    && Described(more) == (if Names(a) then AddName(Described(args), a) else Described(args))
    && ParamsAfter(more) == (if a.Keyopt? then AddOpt(ParamsAfter(args), KeyIndex(args), a.opt) else ParamsAfter(args))
    && (OptsHaveKey(more) <==> OptsHaveKey(args) && (a.Keyopt? ==> KeyIndex(args) >= 0))
  }

  lemma {:induction false} ReadMore(args: seq<Arg>, a: Arg)
    ensures Next(args, a, args + [a])
  {
    OneMore(args, a);
    ParamsMore(args, a);
    DescribedStep(args, a);
    KeyIndexOfPrefix(args, a);
  }

  /** These signers are described, n recipients were given, and no options. */
  ghost predicate NoOptsYet(args: seq<Arg>, ds: seq<Desc>, n: nat) {
    Described(args) == ds && Recipients(args) == n && ParamsAfter(args) == []
    && OptsHaveKey(args) && OptsFor(args, 0) == []
  }

  lemma {:induction false} NothingYet()
    ensures NoOptsYet([], [], 0)
  {
  }

  lemma {:induction false} SignerFirst(s: string)
    ensures NoOptsYet([Signer(s)], [Desc(Some(s), None)], 0)
  {
    assert [Signer(s)] == [] + [Signer(s)];
    ReadMore([], Signer(s));
    OptsForMore([], Signer(s), 0);
  }

  lemma {:induction false} EncryptSelected(args: seq<Arg>, ds: seq<Desc>, n: nat)
    requires NoOptsYet(args, ds, n)
    ensures NoOptsYet(args + [Select(Encrypt)], ds, n) && OperationOf(args + [Select(Encrypt)]) == Encrypt
  {
    ReadMore(args, Select(Encrypt));
    OptsForMore(args, Select(Encrypt), 0);
  }

  lemma {:induction false} OneMoreRecipient(args: seq<Arg>, ds: seq<Desc>, n: nat, r: string)
    requires NoOptsYet(args, ds, n) && OperationOf(args) == Encrypt
    ensures NoOptsYet(args + [Recip(r)], ds, n + 1) && OperationOf(args + [Recip(r)]) == Encrypt
  {
    ReadMore(args, Recip(r));
    OptsForMore(args, Recip(r), 0);
  }

  lemma {:induction false} StrayIsFiled(args: seq<Arg>, more: seq<Arg>, ds: seq<Desc>, n: nat, o: string)
    requires NoOptsYet(args, ds, n) && OperationOf(args) == Encrypt && n > 0 && Next(args, Keyopt(o), more)
    ensures Described(more) == ds && OptsHaveKey(more) && ParamsAfter(more) == [KeyParam(n - 1, [o])]
  {
  }

  lemma {:induction false} StrayIsMisfiled(args: seq<Arg>, ds: seq<Desc>, n: nat, o: string)
    requires NoOptsYet(args, ds, n) && OperationOf(args) == Encrypt && n != |ds|
    ensures !OptsFiledRight(args + [Keyopt(o)])
  {
    if OptsFiledRight(args + [Keyopt(o)]) { FiledRightPrefix(args, Keyopt(o)); }
  }

  /** An option given while encryption is selected is filed under the last recipient's position. */
  lemma {:induction false} StrayOpt(args: seq<Arg>, ds: seq<Desc>, n: nat, o: string)
    requires NoOptsYet(args, ds, n) && OperationOf(args) == Encrypt && n > 0 && n != |ds|
    ensures var more := args + [Keyopt(o)];
            Described(more) == ds && OptsHaveKey(more) && OptsFor(more, 0) == (if |ds| == 1 then [o] else [])
            && ParamsAfter(more) == [KeyParam(n - 1, [o])] && !OptsFiledRight(more)
  {
    ReadMore(args, Keyopt(o));
    StrayIsFiled(args, args + [Keyopt(o)], ds, n, o);
    StrayIsMisfiled(args, ds, n, o);
    OptsForMore(args, Keyopt(o), 0);
  }

  lemma {:induction false} LeakIsSigned(seen: seq<Arg>, more: seq<Arg>, args: seq<Arg>, o: string, s: string)
    requires Described(seen) == [] && OptsHaveKey(seen) && ParamsAfter(seen) == [KeyParam(0, [o])]
    requires Next(seen, Select(SignOp), more) && Next(more, Signer(s), args)
    ensures Accepted(args) && OptsOf(ParamsAfter(args), 0) == [o]
  {
    assert Described(args) == [Desc(Some(s), None)];
    FindSnoc([], KeyParam(0, [o]), 0);
  }

  /** Without that condition it fails: an option for a recipient is applied to the signer. */
  lemma {:induction false} EncryptOptLeaks(r: string, o: string, s: string)
    ensures var args := [Select(Encrypt)] + [Recip(r)] + [Keyopt(o)] + [Select(SignOp)] + [Signer(s)];
            Accepted(args) && OptsFor(args, 0) == [] && OptsOf(ParamsAfter(args), 0) == [o]
  {
    var a1: seq<Arg> := [Select(Encrypt)];
    var a2 := a1 + [Recip(r)];
    NothingYet();
    EncryptSelected([], [], 0);
    assert [] + a1 == a1;
    OneMoreRecipient(a1, [], 0, r);
    StrayOpt(a2, [], 1, o);
    var a3 := a2 + [Keyopt(o)];
    var a4 := a3 + [Select(SignOp)];
    ReadMore(a3, Select(SignOp));
    ReadMore(a4, Signer(s));
    LeakIsSigned(a3, a4, a4 + [Signer(s)], o, s);
    OptsForMore(a3, Select(SignOp), 0);
    OptsForMore(a4, Signer(s), 0);
  }

  lemma {:induction false} HighOptIsUnused(seen: seq<Arg>, more: seq<Arg>, args: seq<Arg>, o: string, s: string)
    requires Described(seen) == [] && OptsHaveKey(seen) && ParamsAfter(seen) == [KeyParam(1, [o])]
    requires Next(seen, Signer(s), more) && Next(more, Select(SignOp), args)
    ensures Accepted(args) && |Described(args)| == 1 && OptsOf(ParamsAfter(args), 0) == []
  {
    assert Described(args) == [Desc(Some(s), None)];
    FindSnoc([], KeyParam(1, [o]), 0);
  }

  /** An option given before any signer, and filed above all of them, is lost without harm: the one
      signer gets its options, none, though the option was not filed under it. */
  lemma {:induction false} UnusedOptIsHarmless(q: string, r: string, o: string, s: string)
    ensures var args := [Select(Encrypt)] + [Recip(q)] + [Recip(r)] + [Keyopt(o)] + [Signer(s)] + [Select(SignOp)];
            Accepted(args) && |Described(args)| == 1 && OptsOf(ParamsAfter(args), 0) == OptsFor(args, 0)
            && !OptsFiledRight(args)
  {
    var a1: seq<Arg> := [Select(Encrypt)];
    var a2 := a1 + [Recip(q)];
    var a3 := a2 + [Recip(r)];
    NothingYet();
    EncryptSelected([], [], 0);
    assert [] + a1 == a1;
    OneMoreRecipient(a1, [], 0, q);
    OneMoreRecipient(a2, [], 1, r);
    StrayOpt(a3, [], 2, o);
    var a4 := a3 + [Keyopt(o)];
    var a5 := a4 + [Signer(s)];
    ReadMore(a4, Signer(s));
    ReadMore(a5, Select(SignOp));
    HighOptIsUnused(a4, a5, a5 + [Select(SignOp)], o, s);
    OptsForMore(a4, Signer(s), 0);
    OptsForMore(a5, Select(SignOp), 0);
    if OptsFiledRight(a5 + [Select(SignOp)]) {
      FiledRightPrefix(a5, Select(SignOp));
      FiledRightPrefix(a4, Signer(s));
    }
  }

  lemma {:induction false} LostIsSigned(seen: seq<Arg>, args: seq<Arg>, s: string, o: string)
    requires Described(seen) == [Desc(Some(s), None)] && OptsHaveKey(seen) && ParamsAfter(seen) == [KeyParam(1, [o])]
    requires Next(seen, Select(SignOp), args)
    ensures Accepted(args) && |Described(args)| == 1 && ParamsAfter(args) == [KeyParam(1, [o])]
    ensures OptsOf(ParamsAfter(args), 0) == []
  {
    FindSnoc([], KeyParam(1, [o]), 0);
  }

  /** The same option given after the signer is lost for that signer. */
  lemma {:induction false} OptIsLost(s: string, q: string, r: string, o: string)
    ensures var args := [Signer(s)] + [Select(Encrypt)] + [Recip(q)] + [Recip(r)] + [Keyopt(o)] + [Select(SignOp)];
            Accepted(args) && |Described(args)| == 1 && ParamsAfter(args) == [KeyParam(1, [o])]
            && OptsFor(args, 0) == [o] && OptsOf(ParamsAfter(args), 0) == []
  {
    var a1: seq<Arg>, ds := [Signer(s)], [Desc(Some(s), None)];
    var a2 := a1 + [Select(Encrypt)];
    var a3 := a2 + [Recip(q)];
    var a4 := a3 + [Recip(r)];
    var a5 := a4 + [Keyopt(o)];
    SignerFirst(s);
    EncryptSelected(a1, ds, 0);
    OneMoreRecipient(a2, ds, 0, q);
    OneMoreRecipient(a3, ds, 1, r);
    StrayOpt(a4, ds, 2, o);
    ReadMore(a5, Select(SignOp));
    LostIsSigned(a5, a5 + [Select(SignOp)], s, o);
    OptsForMore(a5, Select(SignOp), 0);
  }

  // ----- Lines written out -----

  /** One more name after these descriptions. */
  lemma {:induction false} NameRead(args: seq<Arg>, ds: seq<Desc>, a: Arg, after: seq<Desc>)
    requires Described(args) == ds && Names(a) && after == AddName(ds, a)
    ensures Described(args + [a]) == after
  {
    DescribedStep(args, a);
  }

  /** A key and a certificate next to each other belong together in either order; a certificate that
      is followed by another signer's names has no key. */
  lemma {:induction false} PairsAreRead(k1: string, s1: string, s2: string, k2: string, s3: string)
    ensures Described([Inkey(k1)] + [Signer(s1)] + [Signer(s2)] + [Inkey(k2)] + [Signer(s3)])
            == [Desc(Some(s1), Some(k1)), Desc(Some(s2), Some(k2)), Desc(Some(s3), None)]
  {
    var d1, d2 := Desc(Some(s1), Some(k1)), Desc(Some(s2), Some(k2));
    var a1: seq<Arg> := [Inkey(k1)];
    assert [] + a1 == a1;
    NameRead([], [], Inkey(k1), [Desc(None, Some(k1))]);
    NameRead(a1, [Desc(None, Some(k1))], Signer(s1), [d1]);
    var a2 := a1 + [Signer(s1)];
    NameRead(a2, [d1], Signer(s2), [d1, Desc(Some(s2), None)]);
    var a3 := a2 + [Signer(s2)];
    NameRead(a3, [d1, Desc(Some(s2), None)], Inkey(k2), [d1, d2]);
    NameRead(a3 + [Inkey(k2)], [d1, d2], Signer(s3), [d1, d2, Desc(Some(s3), None)]);
  }

  lemma {:induction false} NamesAreSigned(names: seq<Arg>, ds: seq<Desc>)
    requires Described(names) == ds && ds != [] && AllSigned(ds)
    requires forall k :: 0 <= k < |names| ==> !names[k].Keyopt?
    ensures Accepted(names + [Select(SignOp)]) && Described(names + [Select(SignOp)]) == ds
  {
    ReadMore(names, Select(SignOp));
  }

  /** So the signing line with these names has three signers, and the third is its own key. */
  lemma {:induction false} PairsAreSigned(k1: string, s1: string, s2: string, k2: string, s3: string)
    ensures var names := [Inkey(k1)] + [Signer(s1)] + [Signer(s2)] + [Inkey(k2)] + [Signer(s3)];
            var ds := Described(names + [Select(SignOp)]);
            Accepted(names + [Select(SignOp)]) && SignersOf(ds) == [s1, s2, s3] && KeysOf(ds) == [k1, k2, s3]
  {
    var names := [Inkey(k1)] + [Signer(s1)] + [Signer(s2)] + [Inkey(k2)] + [Signer(s3)];
    PairsAreRead(k1, s1, s2, k2, s3);
    NamesAreSigned(names, [Desc(Some(s1), Some(k1)), Desc(Some(s2), Some(k2)), Desc(Some(s3), None)]);
  }

  /** No operation is selected, these signers are described, and the first two have these options. */
  ghost predicate Filed(args: seq<Arg>, ds: seq<Desc>, first: seq<string>, second: seq<string>) {
    Described(args) == ds && OperationOf(args) == NoOp && OptsHaveKey(args) && OptsFiledRight(args)
    && OptsFor(args, 0) == first && OptsFor(args, 1) == second
  }

  lemma {:induction false} FiledName(args: seq<Arg>, ds: seq<Desc>, x: seq<string>, y: seq<string>, a: Arg,
                                     after: seq<Desc>)
    requires Filed(args, ds, x, y) && Names(a) && after == AddName(ds, a)
    ensures Filed(args + [a], after, x, y)
  {
    ReadMore(args, a);
    FiledRightNext(args, a);
    OptsForMore(args, a, 0);
    OptsForMore(args, a, 1);
  }

  lemma {:induction false} FiledOpt(args: seq<Arg>, ds: seq<Desc>, x: seq<string>, y: seq<string>, o: string)
    requires Filed(args, ds, x, y) && ds != []
    ensures Filed(args + [Keyopt(o)], ds, x + if |ds| == 1 then [o] else [], y + if |ds| == 2 then [o] else [])
  {
    ReadMore(args, Keyopt(o));
    FiledRightNext(args, Keyopt(o));
    OptsForMore(args, Keyopt(o), 0);
    OptsForMore(args, Keyopt(o), 1);
  }

  lemma {:induction false} FiledIsSigned(seen: seq<Arg>, ds: seq<Desc>, x: seq<string>, y: seq<string>)
    requires Filed(seen, ds, x, y) && ds != [] && AllSigned(ds)
    ensures var args := seen + [Select(SignOp)];
            Accepted(args) && Described(args) == ds
            && OptsOf(ParamsAfter(args), 0) == x && OptsOf(ParamsAfter(args), 1) == y
  {
    var args := seen + [Select(SignOp)];
    ReadMore(seen, Select(SignOp));
    FiledRightNext(seen, Select(SignOp));
    OptsForMore(seen, Select(SignOp), 0);
    OptsForMore(seen, Select(SignOp), 1);
    ParamsAreRight(args);
    assert SameOpts(ParamsAfter(args), args, 0) && SameOpts(ParamsAfter(args), args, 1);
  }

  /** A signer with two options and a second signer with one, then its key: each is to sign with its
      own options, in their order. */
  lemma {:induction false} OptsFollowSigner(s1: string, o1: string, o2: string, s2: string, o3: string, k2: string)
    ensures var args := [Signer(s1)] + [Keyopt(o1)] + [Keyopt(o2)] + [Signer(s2)] + [Keyopt(o3)] + [Inkey(k2)]
                        + [Select(SignOp)];
            Accepted(args) && Described(args) == [Desc(Some(s1), None), Desc(Some(s2), Some(k2))]
            && OptsOf(ParamsAfter(args), 0) == [o1, o2] && OptsOf(ParamsAfter(args), 1) == [o3]
  {
    var a1: seq<Arg> := [Signer(s1)];
    var a2, a3, d1 := a1 + [Keyopt(o1)], a1 + [Keyopt(o1)] + [Keyopt(o2)], Desc(Some(s1), None);
    var a4 := a3 + [Signer(s2)];
    var a5 := a4 + [Keyopt(o3)];
    assert [] + a1 == a1;
    FiledName([], [], [], [], Signer(s1), [d1]);
    FiledOpt(a1, [d1], [], [], o1);
    FiledOpt(a2, [d1], [o1], [], o2);
    FiledName(a3, [d1], [o1, o2], [], Signer(s2), [d1, Desc(Some(s2), None)]);
    FiledOpt(a4, [d1, Desc(Some(s2), None)], [o1, o2], [], o3);
    FiledName(a5, [d1, Desc(Some(s2), None)], [o1, o2], [o3], Inkey(k2), [d1, Desc(Some(s2), Some(k2))]);
    FiledIsSigned(a5 + [Inkey(k2)], [d1, Desc(Some(s2), Some(k2))], [o1, o2], [o3]);
  }

  /** Two keys at the start, an option at the start, and a line without a certificate are refused,
      whatever follows. */
  lemma {:induction false} TwoKeysAreRefused(k1: string, k2: string, rest: seq<Arg>)
    ensures !Accepted([Inkey(k1)] + [Inkey(k2)] + rest)
  {
    var args := [Inkey(k1)] + [Inkey(k2)] + rest;
    NameRead([], [], Inkey(k1), [Desc(None, Some(k1))]);
    assert args[..1] == [] + [Inkey(k1)] && args[1] == Inkey(k2);
    UnreadableIsRefused(args, 1);
  }

  lemma {:induction false} EarlyOptIsRefused(o: string, rest: seq<Arg>)
    ensures !Accepted([Keyopt(o)] + rest)
  {
    var args := [Keyopt(o)] + rest;
    assert args[0] == Keyopt(o) && args[..0] == [];
    UnreadableIsRefused(args, 0);
  }

  /** So is a line that selects another operation last, or none. */
  lemma {:induction false} OtherOperation(args: seq<Arg>, op: Op)
    requires op != SignOp
    ensures !Accepted(args + [Select(op)])
    ensures (forall k :: 0 <= k < |args| ==> !args[k].Select?) ==> !Accepted(args)
  {
    OneMore(args, Select(op));
    if forall k :: 0 <= k < |args| ==> !args[k].Select? { NothingSelected(args); }
  }

  lemma {:induction false} NothingSelected(args: seq<Arg>)
    requires forall k :: 0 <= k < |args| ==> !args[k].Select?
    ensures OperationOf(args) == NoOp
  {
    if args != [] { NothingSelected(args[..|args| - 1]); }
  }

  lemma {:induction false} NoSignerIsRefused(args: seq<Arg>)
    requires forall k :: 0 <= k < |args| ==> !args[k].Signer?
    ensures !Accepted(args)
  {
    if Accepted(args) {
      ListsOfAccepted(args);
      var signer := SignersOf(Described(args))[0];
      CollectMembers(args, SignerArg(), signer);
    }
  }

  // ----- What reaches the signers -----

  /** An option given now reaches the signer being described, or, before any is described, stays
      clear of the n signers there will be. */
  predicate Reaches(seen: seq<Arg>, n: nat) {
    if Described(seen) != [] then KeyIndex(seen) == |Described(seen)| - 1 else KeyIndex(seen) >= n
  }

  predicate OptsReach(args: seq<Arg>, n: nat) {
    forall k :: 0 <= k < |args| && args[k].Keyopt? ==> Reaches(args[..k], n)
  }

  /** Every option reaches the signer it was given for, and no option reaches another. */
  predicate OptsReachSigners(args: seq<Arg>) {
    OptsReach(args, |Described(args)|)
  }

  /** Every signer is to get exactly the options given while it was described. */
  ghost predicate SignersRight(args: seq<Arg>) {
    forall i: nat :: i < |Described(args)| ==> SameOpts(ParamsAfter(args), args, i)
  }

  lemma {:induction false} OptsReachPrefix(args: seq<Arg>, a: Arg, n: nat)
    requires OptsReach(args + [a], n)
    ensures OptsReach(args, n) && (a.Keyopt? ==> Reaches(args, n))
  {
    var more := args + [a];
    assert forall k :: 0 <= k < |args| ==> more[..k] == args[..k] && more[k] == args[k];
    assert more[..|args|] == args && more[|args|] == a;
  }

  /** Below n the positions increase, and nothing follows them that is not below n; all of them are
      below m, the number of signers described so far. */
  ghost predicate Low(ps: seq<KeyParam>, n: nat, m: nat) {
    && (forall j, k :: 0 <= j < k < |ps| ==> ps[j].idx >= n || ps[j].idx < ps[k].idx < n)
    && (forall j :: 0 <= j < |ps| ==> ps[j].idx >= n || 0 <= ps[j].idx < m)
  }

  lemma {:induction false} LowAdd(ps: seq<KeyParam>, n: nat, m: nat, f: int, opt: string)
    requires Low(ps, n, m) && m <= n && if m > 0 then f == m - 1 else f >= n
    ensures Low(AddOpt(ps, f, opt), n, m)
  {
  }

  lemma {:induction false} LowAdds(ps: seq<KeyParam>, n: nat, m: nat, f: int, opt: string, i: nat)
    requires Low(ps, n, m) && i < n && m <= n && if m > 0 then f == m - 1 else f >= n
    ensures OptsOf(AddOpt(ps, f, opt), i) == OptsOf(ps, i) + if i == m - 1 then [opt] else []
  {
    if m > 0 {
      assert ps != [] ==> ps[|ps| - 1].idx <= f || ps[|ps| - 1].idx >= n;
      AddOptLast(ps, f, opt, i);
    } else {
      MisfiledFind(ps, f, opt, i);
    }
  }

  lemma {:induction false} ReachNext(ps: seq<KeyParam>, args: seq<Arg>, opt: string, n: nat, i: nat)
    requires Low(ps, n, |Described(args)|) && |Described(args)| <= n && Reaches(args, n) && i < n
    requires SameOpts(ps, args, i)
    ensures SameOpts(AddOpt(ps, KeyIndex(args), opt), args + [Keyopt(opt)], i)
  {
    LowAdds(ps, n, |Described(args)|, KeyIndex(args), opt, i);
    OptsForMore(args, Keyopt(opt), i);
  }

  lemma {:induction false} ReachKeeps(args: seq<Arg>, n: nat, i: nat)
    requires OptsReach(args, n) && |Described(args)| <= n && i < n
    ensures Low(ParamsAfter(args), n, |Described(args)|) && SameOpts(ParamsAfter(args), args, i)
  {
    if args != [] {
      var front, a := args[..|args| - 1], args[|args| - 1];
      assert args == front + [a];
      OptsReachPrefix(front, a, n);
      DescribedStep(front, a);
      ReachKeeps(front, n, i);
      ParamsMore(front, a);
      if a.Keyopt? {
        LowAdd(ParamsAfter(front), n, |Described(front)|, KeyIndex(front), a.opt);
        ReachNext(ParamsAfter(front), front, a.opt, n, i);
      } else {
        OptsForMore(front, a, i);
      }
    }
  }

  /** If the options reach their signers, every signer gets exactly its own. */
  lemma {:induction false} ReachedIsRight(args: seq<Arg>)
    requires OptsReachSigners(args)
    ensures SignersRight(args)
  {
    forall i: nat | i < |Described(args)| ensures SameOpts(ParamsAfter(args), args, i) {
      ReachKeeps(args, |Described(args)|, i);
    }
  }

  /** Filing every option under the signer being described is a way of reaching the signers. */
  lemma {:induction false} FiledRightReaches(args: seq<Arg>)
    requires OptsFiledRight(args) && OptsHaveKey(args)
    ensures OptsReachSigners(args)
  {
  }

  /** No option text is given twice. */
  predicate OptsDistinct(args: seq<Arg>) {
    forall j, k :: 0 <= j < k < |args| && args[j].Keyopt? && args[k].Keyopt? ==> args[j].opt != args[k].opt
  }

  lemma {:induction false} DescribedGrows(args: seq<Arg>, m: nat)
    requires m <= |args|
    ensures |Described(args[..m])| <= |Described(args)|
  {
    if m < |args| {
      var front, a := args[..|args| - 1], args[|args| - 1];
      assert args == front + [a] && front[..m] == args[..m];
      DescribedGrows(front, m);
      DescribedStep(front, a);
    } else {
      assert args[..m] == args;
    }
  }

  /** Argument k is this option, given while signer i was described. */
  predicate GivenFor(args: seq<Arg>, k: nat, opt: string, i: nat) {
    k < |args| && args[k] == Keyopt(opt) && |Described(args[..k])| == i + 1
  }

  /** Argument k is this option, filed under position i. */
  predicate FiledUnder(args: seq<Arg>, k: nat, opt: string, i: int) {
    k < |args| && args[k] == Keyopt(opt) && KeyIndex(args[..k]) == i
  }

  lemma {:induction false} GivenIsCollected(args: seq<Arg>, k: nat, opt: string, i: nat)
    requires GivenFor(args, k, opt, i)
    ensures opt in OptsFor(args, i)
  {
    var front, a := args[..|args| - 1], args[|args| - 1];
    assert args == front + [a];
    OptsForMore(front, a, i);
    if k < |front| {
      assert front[..k] == args[..k];
      GivenIsCollected(front, k, opt, i);
    }
  }

  lemma {:induction false} CollectedIsGiven(args: seq<Arg>, opt: string, i: nat) returns (k: nat)
    requires opt in OptsFor(args, i)
    ensures GivenFor(args, k, opt, i)
  {
    var front, a := args[..|args| - 1], args[|args| - 1];
    assert args == front + [a];
    OptsForMore(front, a, i);
    if opt in OptsFor(front, i) {
      k := CollectedIsGiven(front, opt, i);
      assert front[..k] == args[..k];
    } else {
      k := |front|;
    }
  }

  ghost predicate InParam(ps: seq<KeyParam>, i: int, opt: string) {
    exists j :: 0 <= j < |ps| && ps[j].idx == i && opt in ps[j].opts
  }

  lemma {:induction false} FoundIsInParam(ps: seq<KeyParam>, i: int, opt: string)
    requires opt in OptsOf(ps, i)
    ensures InParam(ps, i, opt)
  {
    var last := |ps| - 1;
    if FindParam(ps[..last], i).Some? {
      FoundIsInParam(ps[..last], i, opt);
      var j :| 0 <= j < last && ps[..last][j].idx == i && opt in ps[..last][j].opts;
      assert ps[j].idx == i && opt in ps[j].opts;
    } else {
      assert ps[last].idx == i && opt in ps[last].opts;
    }
  }

  lemma {:induction false} AddedInParam(ps: seq<KeyParam>, f: int, added: string, i: int, opt: string)
    requires InParam(AddOpt(ps, f, added), i, opt)
    ensures InParam(ps, i, opt) || (i == f && opt == added)
  {
    var more := AddOpt(ps, f, added);
    var j :| 0 <= j < |more| && more[j].idx == i && opt in more[j].opts;
    if !(i == f && opt == added) {
      assert j < |ps| && ps[j].idx == i && opt in ps[j].opts;
    }
  }

  /** What is in a parameter was filed there by some argument. */
  lemma {:induction false} InParamIsFiled(args: seq<Arg>, opt: string, i: int) returns (k: nat)
    requires InParam(ParamsAfter(args), i, opt)
    ensures FiledUnder(args, k, opt, i)
  {
    var front, a := args[..|args| - 1], args[|args| - 1];
    assert args == front + [a];
    ParamsMore(front, a);
    if InParam(ParamsAfter(front), i, opt) {
      k := InParamIsFiled(front, opt, i);
      assert front[..k] == args[..k];
    } else {
      AddedInParam(ParamsAfter(front), KeyIndex(front), a.opt, i, opt);
      k := |front|;
    }
  }

  /** The options found for a position only grow at the end. */
  lemma {:induction false} AddOptGrows(ps: seq<KeyParam>, f: int, opt: string, i: int)
    requires FindParam(ps, i).Some?
    ensures var more := FindParam(AddOpt(ps, f, opt), i); more.Some? && FindParam(ps, i).value <= more.value
  {
    var last := |ps| - 1;
    if ps[last].idx != f {
      FindSnoc(ps, KeyParam(f, [opt]), i);
    } else {
      var front, opts := ps[..last], ps[last].opts;
      assert ps == front + [KeyParam(f, opts)] && AddOpt(ps, f, opt) == front + [KeyParam(f, opts + [opt])];
      FindSnoc(front, KeyParam(f, opts), i);
      FindSnoc(front, KeyParam(f, opts + [opt]), i);
    }
  }

  lemma {:induction false} FoundGrows(args: seq<Arg>, m: nat, i: int)
    requires m <= |args| && FindParam(ParamsAfter(args[..m]), i).Some?
    ensures var more := FindParam(ParamsAfter(args), i);
            more.Some? && FindParam(ParamsAfter(args[..m]), i).value <= more.value
  {
    if m < |args| {
      var front, a := args[..|args| - 1], args[|args| - 1];
      assert args == front + [a] && front[..m] == args[..m];
      FoundGrows(front, m, i);
      ParamsMore(front, a);
      if a.Keyopt? { AddOptGrows(ParamsAfter(front), KeyIndex(front), a.opt, i); }
    } else {
      assert args[..m] == args;
    }
  }

  /** Right after an option is filed, something is found for its position. */
  lemma {:induction false} JustFiled(ps: seq<KeyParam>, f: int, opt: string)
    ensures OptsOf(AddOpt(ps, f, opt), f) != [] || FindParam(ps, f) == Some([])
  {
    var last := |ps| - 1;
    if ps == [] || ps[last].idx != f {
      FindSnoc(ps, KeyParam(f, [opt]), f);
    } else {
      var front, opts := ps[..last], ps[last].opts;
      assert ps == front + [KeyParam(f, opts)] && AddOpt(ps, f, opt) == front + [KeyParam(f, opts + [opt])];
      FindSnoc(front, KeyParam(f, opts), f);
      FindSnoc(front, KeyParam(f, opts + [opt]), f);
    }
  }

  lemma {:induction false} NoEmptyParam(args: seq<Arg>, i: int)
    ensures FindParam(ParamsAfter(args), i) != Some([])
  {
    if args != [] {
      var front, a := args[..|args| - 1], args[|args| - 1];
      assert args == front + [a];
      ParamsMore(front, a);
      NoEmptyParam(front, i);
      if a.Keyopt? {
        var ps, f := ParamsAfter(front), KeyIndex(front);
        if FindParam(ps, i).Some? { AddOptGrows(ps, f, a.opt, i); }
        else if i == f { JustFiled(ps, f, a.opt); }
        else { MisfiledFind(ps, f, a.opt, i); }
      }
    }
  }

  /** An option given for a signer is filed under it, if the signers are right. */
  lemma {:induction false} GivenIsFiled(args: seq<Arg>, k: nat)
    requires OptsDistinct(args) && SignersRight(args)
    requires k < |args| && args[k].Keyopt? && Described(args[..k]) != []
    ensures KeyIndex(args[..k]) == |Described(args[..k])| - 1
  {
    var i, opt := |Described(args[..k])| - 1, args[k].opt;
    DescribedGrows(args, k);
    assert SameOpts(ParamsAfter(args), args, i);
    GivenIsCollected(args, k, opt, i);
    FoundIsInParam(ParamsAfter(args), i, opt);
    var j := InParamIsFiled(args, opt, i);
    assert j == k;
  }

  /** What is found first for the position of an option was given no later than the option. */
  lemma {:induction false} FirstFound(args: seq<Arg>, k: nat) returns (first: string, j: nat)
    requires k < |args| && args[k].Keyopt?
    ensures j <= k && args[j] == Keyopt(first) && first in OptsOf(ParamsAfter(args), KeyIndex(args[..k]))
  {
    var f, seen := KeyIndex(args[..k]), args[..k + 1];
    assert seen == args[..k] + [args[k]];
    ParamsMore(args[..k], args[k]);
    NoEmptyParam(args[..k], f);
    JustFiled(ParamsAfter(args[..k]), f, args[k].opt);
    first := OptsOf(ParamsAfter(seen), f)[0];
    FoundIsInParam(ParamsAfter(seen), f, first);
    j := InParamIsFiled(seen, first, f);
    FoundGrows(args, k + 1, f);
    assert OptsOf(ParamsAfter(seen), f) <= OptsOf(ParamsAfter(args), f);
  }

  /** An option given before any signer does not fall on a signer, if the signers are right: the
      first option found for its position would have been given for that signer, but earlier. */
  lemma {:induction false} EarlyIsClear(args: seq<Arg>, k: nat)
    requires OptsDistinct(args) && SignersRight(args) && OptsHaveKey(args)
    requires k < |args| && args[k].Keyopt? && Described(args[..k]) == []
    ensures KeyIndex(args[..k]) >= |Described(args)|
  {
    var f := KeyIndex(args[..k]);
    if f < |Described(args)| {
      var first, j := FirstFound(args, k);
      assert SameOpts(ParamsAfter(args), args, f);
      var l := CollectedIsGiven(args, first, f);
      assert l == j;
      assert args[..k][..l] == args[..l];
      DescribedGrows(args[..k], l);
    }
  }

  /** At signing time, over every command line whose options all have a key: if the options reach
      their signers, every signer gets exactly its own; and if the texts of the options differ from
      each other, only then. */
  lemma {:induction false} SignersRightExactly(args: seq<Arg>)
    requires OptsHaveKey(args)
    ensures OptsReachSigners(args) ==> SignersRight(args)
    ensures OptsDistinct(args) ==> (SignersRight(args) <==> OptsReachSigners(args))
  {
    if OptsReachSigners(args) { ReachedIsRight(args); }
    if OptsDistinct(args) && SignersRight(args) {
      forall k | 0 <= k < |args| && args[k].Keyopt? ensures Reaches(args[..k], |Described(args)|) {
        if Described(args[..k]) != [] { GivenIsFiled(args, k); } else { EarlyIsClear(args, k); }
      }
    }
  }

  lemma {:induction false} UnsignedSticks(args: seq<Arg>, n: nat, i: nat)
    requires n <= |args| && i < |Described(args[..n])| - 1 && Described(args[..n])[i].signer.None?
    ensures i < |Described(args)| - 1 && Described(args)[i].signer.None?
  {
    if n < |args| {
      var front, a := args[..|args| - 1], args[|args| - 1];
      assert front[..n] == args[..n] && args == front + [a];
      UnsignedSticks(front, n, i);
      DescribedStep(front, a);
    } else {
      assert args[..n] == args;
    }
  }

  /** A signer with its key and the options set on it. */
  datatype Signed = Signed(signer: string, key: string, opts: seq<string>)

  class Options {
    var signerfile: Option<string>
    var keyfile: Option<string>
    var sksigners: seq<string>
    var skkeys: seq<string>
    var operation: Op
    var encerts: nat
    var keyParams: seq<KeyParam>

    /** The state after the arguments seen. */
    ghost predicate Reads(seen: seq<Arg>)
      reads this
    {
      Pending(Described(seen), signerfile, keyfile, sksigners, skkeys)
      && operation == OperationOf(seen) && encerts == Recipients(seen) && keyParams == ParamsAfter(seen)
    }

    constructor ()
      ensures Reads([])
    {
      signerfile, keyfile, sksigners, skkeys := None, None, [], [];
      operation, encerts, keyParams := NoOp, 0, [];
    }

    method OnSigner(file: string, ghost ds: seq<Desc>)
      requires Pending(ds, signerfile, keyfile, sksigners, skkeys)
      modifies this`signerfile, this`keyfile, this`sksigners, this`skkeys
      ensures Pending(AddName(ds, Signer(file)), signerfile, keyfile, sksigners, skkeys)
    {
      if signerfile.Some? {
        PushLast(ds, signerfile.value, keyfile);
        sksigners := sksigners + [signerfile.value];
        if keyfile.None? { keyfile := signerfile; }
        skkeys := skkeys + [keyfile.value];
        keyfile := None;
      }
      signerfile := Some(file);
    }

    method OnInkey(file: string, ghost ds: seq<Desc>) returns (ok: bool)
      requires Pending(ds, signerfile, keyfile, sksigners, skkeys)
      modifies this`signerfile, this`keyfile, this`sksigners, this`skkeys
      ensures ok <==> !(ds != [] && ds[|ds| - 1].key.Some? && ds[|ds| - 1].signer.None?)
      ensures ok ==> Pending(AddName(ds, Inkey(file)), signerfile, keyfile, sksigners, skkeys)
    {
      if keyfile.Some? {
        if signerfile.None? { return false; }
        PushLast(ds, signerfile.value, keyfile);
        sksigners := sksigners + [signerfile.value];
        signerfile := None;
        skkeys := skkeys + [keyfile.value];
      }
      keyfile := Some(file);
      ok := true;
    }

    method OnKeyopt(opt: string, ghost seen: seq<Arg>) returns (ok: bool)
      requires Reads(seen)
      modifies this`keyParams
      ensures ok <==> KeyIndex(seen) >= 0
      ensures ok ==> keyParams == AddOpt(old(keyParams), KeyIndex(seen), opt)
    {
      var keyidx := -1;
      if operation == Encrypt {
        if encerts > 0 { keyidx := keyidx + encerts; }
      } else {
        if keyfile.Some? || signerfile.Some? { keyidx := keyidx + 1; }
        keyidx := keyidx + |skkeys|;
      }
      assert keyidx == KeyIndex(seen) by { DescsNameSomething(Toks(seen)); }
      if keyidx < 0 { return false; }
      var last := |keyParams| - 1;
      if keyParams == [] || keyParams[last].idx != keyidx {
        keyParams := keyParams + [KeyParam(keyidx, [])];
        last := last + 1;
      }
      keyParams := keyParams[last := keyParams[last].(opts := keyParams[last].opts + [opt])];
      assert [] + [opt] == [opt];
      ok := true;
    }

    /** A `-signer` or `-inkey`. */
    method ReadName(a: Arg, ghost seen: seq<Arg>, ghost more: seq<Arg>) returns (ok: bool)
      requires Names(a) && Reads(seen) && Next(seen, a, more)
      modifies this`signerfile, this`keyfile, this`sksigners, this`skkeys
      ensures ok <==> Readable(seen, a)
      ensures ok ==> Reads(more)
    {
      ok := true;
      match a
      case Signer(file) => OnSigner(file, Described(seen));
      case Inkey(file) => ok := OnInkey(file, Described(seen));
    }

    /** A `-keyopt`. */
    method ReadKeyopt(opt: string, ghost seen: seq<Arg>, ghost more: seq<Arg>) returns (ok: bool)
      requires Reads(seen) && Next(seen, Keyopt(opt), more)
      modifies this`keyParams
      ensures ok <==> Readable(seen, Keyopt(opt))
      ensures ok ==> Reads(more)
    {
      ok := OnKeyopt(opt, seen);
    }

    /** A recipient, or the choice of an operation. */
    method ReadOther(a: Arg, ghost seen: seq<Arg>, ghost more: seq<Arg>)
      requires (a.Recip? || a.Select?) && Reads(seen) && Next(seen, a, more)
      modifies this`operation, this`encerts
      ensures Reads(more)
    {
      match a
      case Recip(_) => if operation == Encrypt { encerts := encerts + 1; }
      case Select(op) => operation := op;
    }

    /** One pass of the option loop. */
    method ReadArg(a: Arg, ghost seen: seq<Arg>, ghost more: seq<Arg>) returns (ok: bool)
      requires Reads(seen) && Next(seen, a, more)
      modifies this
      ensures ok <==> Readable(seen, a)
      ensures ok ==> Reads(more)
    {
      ok := true;
      if a.Signer? || a.Inkey? {
        ok := ReadName(a, seen, more);
      } else if a.Keyopt? {
        ok := ReadKeyopt(a.opt, seen, more);
      } else {
        ReadOther(a, seen, more);
      }
    }

    /** The option loop. */
    method ReadArgs(args: seq<Arg>) returns (ok: bool)
      requires Reads([])
      modifies this
      ensures ok ==> Reads(args) && OptsHaveKey(args)
      ensures !ok ==> !Accepted(args)
    {
      for i := 0 to |args|
        invariant Reads(args[..i]) && OptsHaveKey(args[..i])
      {
        assert args[..i + 1] == args[..i] + [args[i]];
        ReadMore(args[..i], args[i]);
        ok := ReadArg(args[i], args[..i], args[..i + 1]);
        if !ok {
          UnreadableIsRefused(args, i);
          return false;
        }
      }
      assert args[..|args|] == args;
      ok := true;
    }

    /** The checks after the loop, and the last signer appended. */
    method Finish(ghost args: seq<Arg>) returns (ok: bool)
      requires Reads(args) && OptsHaveKey(args)
      modifies this`signerfile, this`keyfile, this`sksigners, this`skkeys
      ensures ok <==> Accepted(args)
      ensures ok ==> sksigners == SignersOf(Described(args)) && skkeys == KeysOf(Described(args))
    {
      if operation != SignOp { return false; }
      if keyfile.Some? && signerfile.None? { return false; }
      if signerfile.Some? {
        PushLast(Described(args), signerfile.value, keyfile);
        sksigners := sksigners + [signerfile.value];
        if keyfile.None? { keyfile := signerfile; }
        skkeys := skkeys + [keyfile.value];
      } else {
        DescsNameSomething(Toks(args));
      }
      if sksigners == [] { return false; }
      signerfile, keyfile := None, None;
      ok := true;
    }

    /** The signing loop: each signer with its key and the first parameters filed for it. */
    method SignAll() returns (signed: seq<Signed>)
      requires |sksigners| == |skkeys|
      ensures |signed| == |sksigners|
      ensures forall i :: 0 <= i < |signed| ==> signed[i] == Signed(sksigners[i], skkeys[i], OptsOf(keyParams, i))
    {
      signed := [];
      for i := 0 to |sksigners|
        invariant |signed| == i
        invariant forall j :: 0 <= j < i ==> signed[j] == Signed(sksigners[j], skkeys[j], OptsOf(keyParams, j))
      {
        var opts := FindOpts(i);
        signed := signed + [Signed(sksigners[i], skkeys[i], opts)];
      }
    }

    method FindOpts(i: int) returns (opts: seq<string>)
      ensures opts == OptsOf(keyParams, i)
    {
      for k := 0 to |keyParams|
        invariant FindParam(keyParams[..k], i) == None
      {
        assert keyParams[..k + 1] == keyParams[..k] + [keyParams[k]];
        FindSnoc(keyParams[..k], keyParams[k], i);
        if keyParams[k].idx == i {
          FoundParamSticks(keyParams, k + 1, i);
          return keyParams[k].opts;
        }
      }
      assert keyParams[..|keyParams|] == keyParams;
      opts := [];
    }
  }

  /** The option loop goes on after this argument. */
  predicate Readable(seen: seq<Arg>, a: Arg) {
    var ds := Described(seen);
    (a.Inkey? ==> !(ds != [] && ds[|ds| - 1].key.Some? && ds[|ds| - 1].signer.None?))
    && (a.Keyopt? ==> KeyIndex(seen) >= 0)
  }

  lemma {:induction false} UnreadableIsRefused(args: seq<Arg>, i: nat)
    requires i < |args| && !Readable(args[..i], args[i])
    ensures !Accepted(args)
  {
    var ds := Described(args[..i]);
    if args[i].Inkey? {
      assert args[..i + 1] == args[..i] + [args[i]];
      DescribedStep(args[..i], args[i]);
      UnsignedSticks(args, i + 1, |ds| - 1);
    }
  }

  ghost predicate HaveTheirOpts(signed: seq<Signed>, args: seq<Arg>) {
    forall i :: 0 <= i < |signed| ==> signed[i].opts == OptsFor(args, i)
  }

  lemma {:induction false} SignedRight(signed: seq<Signed>, args: seq<Arg>)
    requires |signed| == |Described(args)|
    requires forall i :: 0 <= i < |signed| ==> signed[i].opts == OptsOf(ParamsAfter(args), i)
    ensures HaveTheirOpts(signed, args) <==> SignersRight(args)
  {
    if SignersRight(args) {
      forall i | 0 <= i < |signed| ensures signed[i].opts == OptsFor(args, i) {
        assert SameOpts(ParamsAfter(args), args, i);
      }
    }
  }

  /** A signing command line, from the arguments to the signatures: accepted exactly when
      every description has a signer, and then each signer signs with its own key, or with
      its certificate file. Each signs with exactly the options given while it was described if the
      options reach their signers, and, if their texts all differ, only then. */
  method Sign(args: seq<Arg>) returns (signed: Option<seq<Signed>>)
    ensures signed.Some? <==> Accepted(args)
    ensures signed.Some? ==>
              var ds := Described(args);
              |signed.value| == |ds|
              && forall i :: 0 <= i < |ds| ==>
                   signed.value[i] == Signed(SignersOf(ds)[i], KeysOf(ds)[i], OptsOf(ParamsAfter(args), i))
    ensures signed.Some? && OptsReachSigners(args) ==> HaveTheirOpts(signed.value, args)
    ensures signed.Some? && OptsDistinct(args) ==> (HaveTheirOpts(signed.value, args) <==> OptsReachSigners(args))
  {
    var o := new Options();
    var ok := o.ReadArgs(args);
    if !ok { return None; }
    ok := o.Finish(args);
    if !ok { return None; }
    var s := o.SignAll();
    SignersRightExactly(args);
    SignedRight(s, args);
    return Some(s);
  }

  /** Pushing the last description makes everything described so far listed. */
  lemma {:induction false} PushLast(ds: seq<Desc>, signer: string, key: Option<string>)
    requires ds != [] && AllSigned(ds[..|ds| - 1]) && ds[|ds| - 1] == Desc(Some(signer), key)
    ensures AllSigned(ds) && SignersOf(ds) == SignersOf(ds[..|ds| - 1]) + [signer]
    ensures KeysOf(ds) == KeysOf(ds[..|ds| - 1]) + [if key.Some? then key.value else signer]
    ensures forall d :: (ds + [d])[..|ds|] == ds
  {
    var n := |ds| - 1;
    assert ds == ds[..n] + [ds[n]];
  }
}
