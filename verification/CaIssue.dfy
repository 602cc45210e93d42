/** Issuing a batch of certificates: the request loop of `ca_main`, the serial number it
    counts up, and what is saved at the end. */
module CaIssue {
  import opened CText
  import opened CaSerial
  import opened CaPolicy
  import opened CaDatabase
  import CaRuns

  /** The settings of a run: the policy, the CA's name, and the X.509 library's lookup of
      field names and one-line printing of names. */
  datatype Config = Config(nid: string -> Option<nat>, policy: seq<PolicyLine>, caName: Name, selfsign: bool,
                           preserve: bool, emailDn: bool, email: nat, oneline: Name -> string)

  /** Where a request comes from: `-spkac`, `-ss_cert`, or `-in` and the arguments. */
  datatype Source = Spkac | SelfSignedCert | Pkcs10

  /** A request: not readable, not signed by its own key, or one whose certificate the
      operator may decline. */
  datatype Request =
    | Unreadable
    | BadSignature(source: Source)
    | Readable(source: Source, name: Name, notAfter: string, declined: bool)

  /** The name a policy matches against. Only requests in PKCS #10 form can be self-signed. */
  function MatchName(cfg: Config, req: Request): Name
    requires req.Readable?
  {
    if cfg.selfsign && req.source == Pkcs10 then req.name else cfg.caName
  }

  function CertOf(cfg: Config, serial: int, req: Request): Option<Cert>
    requires req.Readable?
  {
    match CertSubject(cfg.nid, cfg.policy, req.name, MatchName(cfg, req), cfg.preserve, cfg.emailDn, cfg.email)
    case None => None
    case Some(subject) => Some(Cert(cfg.oneline(subject), serial, req.notAfter))
  }

  /** The result of certifying one request: -1 for a hard failure, 0 for a request passed
      over, 1 for a certificate recorded in the database. A bad signature is a hard failure
      for `-spkac` alone, and the operator is not asked about those. */
  function Outcome(cfg: Config, db: Db, serial: int, req: Request): (int, Db) {
    match req
    case Unreadable => (-1, db)
    case BadSignature(source) => (if source == Spkac then -1 else 0, db)
    case Readable(source, name, notAfter, declined) =>
      var cert := CertOf(cfg, serial, req);
      if cert.None? || Certify(db, cert.value).None? then (-1, db)
      else if declined && source != Spkac then (0, db)
      else (1, Certify(db, cert.value).value)
  }

  /** The certificate for a request that satisfies the policy. */
  predicate CertFor(cfg: Config, serial: int, req: Request, c: Cert)
    requires req.Readable?
  {
    var ca := if cfg.selfsign && req.source == Pkcs10 then req.name else cfg.caName;
    var subject := CertSubject(cfg.nid, cfg.policy, req.name, ca, cfg.preserve, cfg.emailDn, cfg.email);
    subject.Some? && c == Cert(cfg.oneline(subject.value), serial, req.notAfter)
  }

  /** Some line of the policy refuses the request. */
  predicate PolicyRefuses(cfg: Config, req: Request)
    requires req.Readable?
  {
    var ca := if cfg.selfsign && req.source == Pkcs10 then req.name else cfg.caName;
    exists k :: 0 <= k < |cfg.policy| && LineFails(cfg.nid, cfg.policy[k], req.name, ca)
  }

  /** A failure that ends the batch: the request cannot be read, is a badly signed `-spkac`, is
      refused by the policy, or its certificate clashes with the database. */
  ghost predicate FailsHard(cfg: Config, db: Db, serial: int, req: Request) {
    match req
    case Unreadable => true
    case BadSignature(source) => source == Spkac
    case Readable(_, _, _, _) =>
      PolicyRefuses(cfg, req)
      || exists c :: CertFor(cfg, serial, req, c) && (CaRuns.SerialTaken(db, c) || CaRuns.NameTaken(db, c))
  }

  /** A request that is to get a certificate: the operator did not decline it, or was not asked. */
  predicate Wanted(req: Request) {
    req.Readable? && (req.declined ==> req.source == Spkac)
  }

  lemma {:induction false} CertForExactly(cfg: Config, serial: int, req: Request)
    requires req.Readable?
    ensures CertOf(cfg, serial, req).None? <==> PolicyRefuses(cfg, req)
    ensures forall c :: CertFor(cfg, serial, req, c) <==> CertOf(cfg, serial, req) == Some(c)
  {
    SubjectRefused(cfg.nid, cfg.policy, req.name, MatchName(cfg, req), cfg.preserve, cfg.emailDn, cfg.email);
  }

  /** What becomes of a request: it fails hard, or it is wanted and its certificate gets a row, or it
      is passed over; only the second changes the database. */
  lemma {:induction false} OutcomeExactly(cfg: Config, db: Db, serial: int, req: Request)
    requires WellFormed(db)
    ensures var (j, db') := Outcome(cfg, db, serial, req);
            && (j < 0 <==> FailsHard(cfg, db, serial, req))
            && (j > 0 <==> !FailsHard(cfg, db, serial, req) && Wanted(req))
            && (j <= 0 ==> db' == db)
            && (j > 0 ==> exists c :: CertFor(cfg, serial, req, c) && db'.rows == db.rows + [CaRuns.ValidRow(c)])
  {
    if req.Readable? {
      CertForExactly(cfg, serial, req);
      if CertOf(cfg, serial, req).Some? {
        var c := CertOf(cfg, serial, req).value;
        CaRuns.IssueRefused(db, c);
        if Certify(db, c).Some? { CaRuns.IssueAppends(db, c); }
      }
    }
  }

  datatype Progress = Progress(db: Db, serial: int, certs: seq<Cert>)

  /** A request as a step of the loop. */
  type IssueStep = (Progress, Request) -> Option<Progress>

  function Issue(cfg: Config): IssueStep {
    (p, req) => IssueOne(cfg, p, req)
  }

  /** What the loop makes of the result of one request. */
  function Advance(p: Progress, j: int, db: Db, cert: Option<Cert>): Option<Progress> {
    if j < 0 then None
    else if j == 0 then Some(p)
    else if cert.None? then None
    else Some(Progress(db, p.serial + 1, p.certs + [cert.value]))
  }

  function IssueOne(cfg: Config, p: Progress, req: Request): Option<Progress> {
    var (j, db') := Outcome(cfg, p.db, p.serial, req);
    Advance(p, j, db', if req.Readable? then CertOf(cfg, p.serial, req) else None)
  }

  /** The request loop: nothing after a hard failure. */
  function Steps(step: IssueStep, start: Progress, reqs: seq<Request>): Option<Progress> {
    if reqs == [] then Some(start) else
      match Steps(step, start, reqs[..|reqs| - 1])
      case None => None
      case Some(p) => step(p, reqs[|reqs| - 1])
  }

  function IssueAll(cfg: Config, db: Db, serial: int, reqs: seq<Request>): Option<Progress> {
    Steps(Issue(cfg), Progress(db, serial, []), reqs)
  }

  function NewRows(certs: seq<Cert>): (rows: seq<Row>)
    ensures |rows| == |certs| && forall k :: 0 <= k < |certs| ==> rows[k] == NewRow(certs[k])
  {
    seq(|certs|, k requires 0 <= k < |certs| => NewRow(certs[k]))
  }

  /** One valid row has been added per certificate, in order, with consecutive serials from
      the starting one, and the serial is above all of them. */
  ghost predicate Added(db: Db, serial: int, p: Progress) {
    WellFormed(p.db) && p.db.rows == db.rows + NewRows(p.certs)
    && p.serial == serial + |p.certs|
    && forall k :: 0 <= k < |p.certs| ==> p.certs[k].serial == serial + k
  }

  lemma {:induction false} NewRowsNext(certs: seq<Cert>, c: Cert)
    ensures NewRows(certs + [c]) == NewRows(certs) + [NewRow(c)]
  {
    assert forall k :: 0 <= k < |certs| ==> NewRows(certs + [c])[k] == NewRows(certs)[k];
  }

  lemma {:induction false} CertifyInserts(db: Db, c: Cert)
    requires WellFormed(db) && Certify(db, c).Some?
    ensures WellFormed(Certify(db, c).value) && Certify(db, c).value.rows == db.rows + [NewRow(c)]
  {
    InsertKeeps(db, NewRow(c));
  }

  lemma {:induction false} AddedStep(db: Db, serial: int, p: Progress, c: Cert, after: Db)
    requires Added(db, serial, p) && c.serial == p.serial && WellFormed(after) && after.rows == p.db.rows + [NewRow(c)]
    ensures Added(db, serial, Progress(after, p.serial + 1, p.certs + [c]))
  {
    NewRowsNext(p.certs, c);
    assert db.rows + NewRows(p.certs) + [NewRow(c)] == db.rows + (NewRows(p.certs) + [NewRow(c)]);
  }

  lemma {:induction false} IssueOneAdds(cfg: Config, db: Db, serial: int, p: Progress, req: Request)
    requires Added(db, serial, p) && IssueOne(cfg, p, req).Some?
    ensures Added(db, serial, IssueOne(cfg, p, req).value)
  {
    if Outcome(cfg, p.db, p.serial, req).0 > 0 {
      var c := CertOf(cfg, p.serial, req).value;
      CertifyInserts(p.db, c);
      AddedStep(db, serial, p, c, Certify(p.db, c).value);
    }
  }

  lemma {:induction false} IssueAdds(cfg: Config, db: Db, serial: int, reqs: seq<Request>)
    requires WellFormed(db) && IssueAll(cfg, db, serial, reqs).Some?
    ensures Added(db, serial, IssueAll(cfg, db, serial, reqs).value)
  {
    if reqs != [] {
      var front := reqs[..|reqs| - 1];
      IssueAdds(cfg, db, serial, front);
      IssueOneAdds(cfg, db, serial, IssueAll(cfg, db, serial, front).value, reqs[|reqs| - 1]);
    }
  }

  /** What the issuing phase saves: the next serial number and the index file. */
  datatype Saved = Saved(serial: Option<int>, rows: Option<seq<Row>>)

  const NOTHING := Saved(None, None)

  /** `certify` and its variants, after the request is read. */
  method CertifyRequest(db: Database, cfg: Config, serial: int, req: Request) returns (j: int, cert: Option<Cert>)
    requires WellFormed(db.State())
    modifies db
    ensures (j, db.State()) == Outcome(cfg, old(db.State()), serial, req)
    ensures j > 0 ==> req.Readable? && cert.Some? && cert == CertOf(cfg, serial, req)
    ensures WellFormed(db.State())
  {
    match req
    case Unreadable => return -1, None;
    case BadSignature(source) => return if source == Spkac then -1 else 0, None;
    case Readable(source, name, notAfter, declined) =>
      var subject := BuildSubject(cfg.nid, cfg.policy, name, MatchName(cfg, req), cfg.preserve, cfg.emailDn, cfg.email);
      if subject.None? { return -1, None; }
      var c := Cert(cfg.oneline(subject.value), serial, notAfter);
      var clash := db.Clashes(c);
      if clash { return -1, None; }
      if declined && source != Spkac { return 0, None; }
      var ok := db.CertifyCert(c);
      return 1, Some(c);
  }

  lemma {:induction false} Advances(cfg: Config, p: Progress, req: Request, j: int, after: Db, cert: Option<Cert>)
    requires (j, after) == Outcome(cfg, p.db, p.serial, req)
    requires j > 0 ==> req.Readable? && cert.Some? && cert == CertOf(cfg, p.serial, req)
    ensures IssueOne(cfg, p, req) == if j < 0 then None else if j == 0 then Some(p)
                                     else Some(Progress(after, p.serial + 1, p.certs + [cert.value]))
  {
  }

  /** One pass of the loop, as a step. */
  method IssueNext(db: Database, cfg: Config, p: Progress, req: Request, ghost step: IssueStep)
    returns (next: Option<Progress>)
    requires WellFormed(db.State()) && p.db == db.State() && Follows(cfg, step)
    modifies db
    ensures next == step(p, req) && WellFormed(db.State()) && (next.Some? ==> next.value.db == db.State())
  {
    var j, cert := CertifyRequest(db, cfg, p.serial, req);
    Advances(cfg, p, req, j, db.State(), cert);
    assert step(p, req) == IssueOne(cfg, p, req);
    return if j < 0 then None else if j == 0 then Some(p)
           else Some(Progress(Db(db.rows, db.unique, db.named), p.serial + 1, p.certs + [cert.value]));
  }

  ghost predicate Follows(cfg: Config, step: IssueStep) {
    forall p, req {:trigger IssueOne(cfg, p, req)} :: step(p, req) == IssueOne(cfg, p, req)
  }

  lemma {:induction false} StepsNext(step: IssueStep, start: Progress, reqs: seq<Request>, i: nat)
    requires i < |reqs|
    ensures Steps(step, start, reqs[..i + 1])
            == match Steps(step, start, reqs[..i]) case None => None case Some(p) => step(p, reqs[i])
  {
    assert reqs[..i + 1][..i] == reqs[..i];
  }

  /** The request loop, with its counter and its list of certificates. */
  method IssueLoop(db: Database, cfg: Config, start: int, reqs: seq<Request>, ghost step: IssueStep)
    returns (r: Option<Progress>)
    requires WellFormed(db.State()) && Follows(cfg, step)
    modifies db
    ensures r == Steps(step, Progress(old(db.State()), start, []), reqs)
    ensures WellFormed(db.State()) && (r.Some? ==> r.value.db == db.State())
  {
    var p := Progress(Db(db.rows, db.unique, db.named), start, []);
    ghost var first := p;
    for i := 0 to |reqs|
      invariant WellFormed(db.State()) && p.db == db.State()
      invariant Steps(step, first, reqs[..i]) == Some(p)
    {
      StepsNext(step, first, reqs, i);
      var next := IssueNext(db, cfg, p, reqs[i], step);
      if next.None? {
        FailureSticks(step, first, reqs, i + 1);
        return None;
      }
      p := next.value;
    }
    assert reqs[..|reqs|] == reqs;
    return Some(p);
  }

  /** The issuing phase. Requests are the `-spkac`, `-ss_cert` and `-in` ones and then the
      arguments, in that order. The next serial is saved if a serial file is configured. */
  method IssueBatch(db: Database, cfg: Config, start: int, reqs: seq<Request>, serialFile: bool, commit: bool)
    returns (saved: Saved, done: bool)
    requires WellFormed(db.State())
    modifies db
    ensures var r := IssueAll(cfg, old(db.State()), start, reqs);
            (done <==> r.Some? && (r.value.certs == [] || commit))
            && (!done || r.value.certs == [] ==> saved == NOTHING)
            && (done && r.value.certs != [] ==>
                  saved == Saved(if serialFile then Some(r.value.serial) else None, Some(r.value.db.rows)))
  {
    var r := IssueLoop(db, cfg, start, reqs, Issue(cfg));
    if r.None? { return NOTHING, false; }
    if |r.value.certs| > 0 {
      if !commit { return NOTHING, false; }
      return Saved(if serialFile then Some(r.value.serial) else None, Some(db.rows)), true;
    }
    return NOTHING, true;
  }

  /** Nothing is issued after a hard failure. */
  lemma {:induction false} FailureSticks(step: IssueStep, start: Progress, reqs: seq<Request>, n: nat)
    requires n <= |reqs| && Steps(step, start, reqs[..n]).None?
    ensures Steps(step, start, reqs).None?
  {
    if n < |reqs| {
      assert reqs[..|reqs| - 1][..n] == reqs[..n];
      FailureSticks(step, start, reqs[..|reqs| - 1], n);
    } else {
      assert reqs[..n] == reqs;
    }
  }

  /** What a committed batch saves: the old rows, then a valid row per certificate with
      consecutive serials, and a next serial above every one of them. */
  lemma {:induction false} CommittedBatch(cfg: Config, db: Db, start: int, reqs: seq<Request>)
    requires WellFormed(db) && IssueAll(cfg, db, start, reqs).Some?
    ensures var p := IssueAll(cfg, db, start, reqs).value;
            p.serial == start + |p.certs| && WellFormed(p.db) && Consecutive(db.rows, p.db.rows, start, p.serial)
  {
    IssueAdds(cfg, db, start, reqs);
    var p := IssueAll(cfg, db, start, reqs).value;
    AppendedRows(db.rows, p.db.rows, p.certs, start);
  }

  /** The rows are the old ones and then valid ones whose serials count from start to next. */
  ghost predicate Consecutive(before: seq<Row>, after: seq<Row>, start: int, next: int) {
    before <= after && |after| - |before| == next - start
    && forall k :: |before| <= k < |after| ==>
         after[k].kind == VALID && after[k].serial == RowSerial(start + k - |before|)
  }

  lemma {:induction false} AppendedAt(before: seq<Row>, certs: seq<Cert>, k: nat)
    requires k < |certs|
    ensures (before + NewRows(certs))[|before| + k] == NewRow(certs[k])
  {
  }

  lemma {:induction false} AppendedRows(before: seq<Row>, after: seq<Row>, certs: seq<Cert>, start: int)
    requires after == before + NewRows(certs) && forall k :: 0 <= k < |certs| ==> certs[k].serial == start + k
    ensures Consecutive(before, after, start, start + |certs|)
  {
    forall k | |before| <= k < |after|
      ensures after[k].kind == VALID && after[k].serial == RowSerial(start + k - |before|)
    {
      AppendedAt(before, certs, k - |before|);
    }
  }

  // ----- Which requests get a certificate -----

  function WantedOf(reqs: seq<Request>): (ws: seq<Request>)
    ensures forall k :: 0 <= k < |ws| ==> ws[k].Readable?
  {
    if reqs == [] then [] else
      var last := |reqs| - 1;
      WantedOf(reqs[..last]) + if Wanted(reqs[last]) then [reqs[last]] else []
  }

  /** The certificates are those of the requests, in order, numbered from the starting serial. */
  ghost predicate CertsFor(cfg: Config, start: int, ws: seq<Request>, certs: seq<Cert>)
    requires forall k :: 0 <= k < |ws| ==> ws[k].Readable?
  {
    |certs| == |ws| && forall k :: 0 <= k < |ws| ==> CertFor(cfg, start + k, ws[k], certs[k])
  }

  lemma {:induction false} CertsNext(cfg: Config, start: int, ws: seq<Request>, certs: seq<Cert>, req: Request, c: Cert)
    requires (forall k :: 0 <= k < |ws| ==> ws[k].Readable?) && CertsFor(cfg, start, ws, certs)
    requires req.Readable? && CertFor(cfg, start + |certs|, req, c)
    ensures CertsFor(cfg, start, ws + [req], certs + [c])
  {
  }

  lemma {:induction false} IssueOneCert(cfg: Config, p: Progress, req: Request)
    requires WellFormed(p.db) && IssueOne(cfg, p, req).Some?
    ensures var certs := IssueOne(cfg, p, req).value.certs;
            if Wanted(req) then exists c :: CertFor(cfg, p.serial, req, c) && certs == p.certs + [c]
            else certs == p.certs
  {
    OutcomeExactly(cfg, p.db, p.serial, req);
    if req.Readable? { CertForExactly(cfg, p.serial, req); }
  }

  lemma {:induction false} IssueOneCerts(cfg: Config, start: int, p: Progress, req: Request, ws: seq<Request>)
    requires WellFormed(p.db) && p.serial == start + |p.certs| && IssueOne(cfg, p, req).Some?
    requires (forall k :: 0 <= k < |ws| ==> ws[k].Readable?) && CertsFor(cfg, start, ws, p.certs)
    ensures CertsFor(cfg, start, ws + if Wanted(req) then [req] else [], IssueOne(cfg, p, req).value.certs)
  {
    IssueOneCert(cfg, p, req);
    if Wanted(req) {
      var c :| CertFor(cfg, p.serial, req, c) && IssueOne(cfg, p, req).value.certs == p.certs + [c];
      CertsNext(cfg, start, ws, p.certs, req, c);
    }
  }

  /** A batch that does not fail gives a certificate to every request that is readable and was not
      declined, in order and with consecutive serials, and to no other. */
  lemma {:induction false} BatchCertifies(cfg: Config, db: Db, start: int, reqs: seq<Request>)
    requires WellFormed(db) && IssueAll(cfg, db, start, reqs).Some?
    ensures CertsFor(cfg, start, WantedOf(reqs), IssueAll(cfg, db, start, reqs).value.certs)
  {
    if reqs != [] {
      var front := reqs[..|reqs| - 1];
      BatchCertifies(cfg, db, start, front);
      IssueAdds(cfg, db, start, front);
      IssueOneCerts(cfg, start, IssueAll(cfg, db, start, front).value, reqs[|reqs| - 1], WantedOf(front));
    }
  }

  /** The requests before this one went well, and it fails hard on what they left. */
  ghost predicate FailsAt(cfg: Config, db: Db, start: int, reqs: seq<Request>, k: nat) {
    k < |reqs| && var p := IssueAll(cfg, db, start, reqs[..k]);
                  p.Some? && FailsHard(cfg, p.value.db, p.value.serial, reqs[k])
  }

  /** A batch fails exactly when some request fails hard. */
  lemma {:induction false} BatchFails(cfg: Config, db: Db, start: int, reqs: seq<Request>)
    requires WellFormed(db)
    ensures IssueAll(cfg, db, start, reqs).None? <==> exists k: nat :: FailsAt(cfg, db, start, reqs, k)
  {
    var step, first := Issue(cfg), Progress(db, start, []);
    if k: nat :| FailsAt(cfg, db, start, reqs, k) {
      FailsNext(cfg, db, start, reqs, k);
      FailureSticks(step, first, reqs, k + 1);
    } else if IssueAll(cfg, db, start, reqs).None? {
      var last := |reqs| - 1;
      var front := reqs[..last];
      assert reqs[..last + 1] == reqs;
      if IssueAll(cfg, db, start, front).Some? {
        FailsNext(cfg, db, start, reqs, last);
        assert FailsAt(cfg, db, start, reqs, last);
      } else {
        BatchFails(cfg, db, start, front);
        var k: nat :| FailsAt(cfg, db, start, front, k);
        assert front[..k] == reqs[..k];
        assert FailsAt(cfg, db, start, reqs, k);
      }
    }
  }

  lemma {:induction false} FailsNext(cfg: Config, db: Db, start: int, reqs: seq<Request>, k: nat)
    requires WellFormed(db) && k < |reqs| && IssueAll(cfg, db, start, reqs[..k]).Some?
    ensures IssueAll(cfg, db, start, reqs[..k + 1]).None? <==> FailsAt(cfg, db, start, reqs, k)
  {
    var p := IssueAll(cfg, db, start, reqs[..k]).value;
    StepsNext(Issue(cfg), Progress(db, start, []), reqs, k);
    IssueAdds(cfg, db, start, reqs[..k]);
    OutcomeExactly(cfg, p.db, p.serial, reqs[k]);
  }

  // ----- A batch as a run -----

  function IssueSteps(certs: seq<Cert>): seq<CaRuns.Step> {
    if certs == [] then [] else IssueSteps(certs[..|certs| - 1]) + [CaRuns.Issue(certs[|certs| - 1])]
  }

  lemma {:induction false} IssueStepsNext(w: CaRuns.World, certs: seq<Cert>, c: Cert)
    ensures CaRuns.Run(w, IssueSteps(certs + [c])) == CaRuns.Next(CaRuns.Run(w, IssueSteps(certs)), CaRuns.Issue(c))
  {
    assert (certs + [c])[..|certs|] == certs;
    var steps := IssueSteps(certs);
    assert (steps + [CaRuns.Issue(c)])[..|steps|] == steps;
  }

  /** A request that does not fail leaves everything as it was, or issues one certificate. */
  lemma {:induction false} IssueOneIs(cfg: Config, p: Progress, req: Request)
    requires IssueOne(cfg, p, req).Some?
    ensures var p' := IssueOne(cfg, p, req).value;
            p' == p || exists c :: Certify(p.db, c) == Some(p'.db) && p'.certs == p.certs + [c]
  {
    if Outcome(cfg, p.db, p.serial, req).0 > 0 {
      assert Certify(p.db, CertOf(cfg, p.serial, req).value) == Some(IssueOne(cfg, p, req).value.db);
    }
  }

  lemma {:induction false} IssuedNext(w: CaRuns.World, db: Db, c: Cert, after: Db)
    requires Certify(db, c) == Some(after)
    ensures CaRuns.Next(w.(db := db), CaRuns.Issue(c)) == w.(db := after)
  {
  }

  lemma {:induction false} OneMoreIssued(w: CaRuns.World, certs: seq<Cert>, db: Db, c: Cert, more: seq<Cert>, after: Db)
    requires CaRuns.Run(w, IssueSteps(certs)) == w.(db := db) && Certify(db, c) == Some(after) && more == certs + [c]
    ensures CaRuns.Run(w, IssueSteps(more)) == w.(db := after)
  {
    IssueStepsNext(w, certs, c);
    IssuedNext(w, db, c, after);
  }

  lemma {:induction false} IssueOneIsStep(cfg: Config, w: CaRuns.World, p: Progress, req: Request, next: Progress)
    requires IssueOne(cfg, p, req) == Some(next) && CaRuns.Run(w, IssueSteps(p.certs)) == w.(db := p.db)
    ensures CaRuns.Run(w, IssueSteps(next.certs)) == w.(db := next.db)
  {
    IssueOneIs(cfg, p, req);
    if next != p {
      var c :| Certify(p.db, c) == Some(next.db) && next.certs == p.certs + [c];
      OneMoreIssued(w, p.certs, p.db, c, next.certs, next.db);
    }
  }

  /** Issuing a batch is the run that issues its certificates one by one. */
  lemma {:induction false} BatchIsRun(w: CaRuns.World, cfg: Config, start: int, reqs: seq<Request>)
    requires IssueAll(cfg, w.db, start, reqs).Some?
    ensures var p := IssueAll(cfg, w.db, start, reqs).value;
            CaRuns.Run(w, IssueSteps(p.certs)) == w.(db := p.db)
  {
    if reqs != [] {
      var front := reqs[..|reqs| - 1];
      BatchIsRun(w, cfg, start, front);
      IssueOneIsStep(cfg, w, IssueAll(cfg, w.db, start, front).value, reqs[|reqs| - 1],
                     IssueAll(cfg, w.db, start, reqs).value);
    }
  }

  lemma {:induction false} AppendedRecord(before: seq<Row>, after: seq<Row>, certs: seq<Cert>, k: nat)
    requires after == before + NewRows(certs) && k < |certs|
    ensures CaRuns.Records(after, |before| + k, certs[k])
  {
    AppendedAt(before, certs, k);
  }

  lemma {:induction false} AddedAndSaved(w: CaRuns.World, issuing: seq<CaRuns.Step>, certs: seq<Cert>, k: nat,
                                         steps: seq<CaRuns.Step>, query: string)
    requires CaRuns.Inv(w) && k < |certs| && CaRuns.Run(w, issuing).db.rows == w.db.rows + NewRows(certs)
    ensures var rows, i := CaRuns.Run(w, issuing + [CaRuns.Save] + steps).db.rows, |w.db.rows| + k;
            CaRuns.Found(rows, i, certs[k], query)
  {
    AppendedRecord(w.db.rows, CaRuns.Run(w, issuing).db.rows, certs, k);
    CaRuns.SavedStaysFound(w, issuing, |w.db.rows| + k, certs[k], steps, query);
  }

  /** So every certificate of a committed batch is found by its serial, passes the name check of
      `do_revoke`, and answers every status query for its number, after any run that follows. */
  lemma {:induction false} BatchStaysFound(w: CaRuns.World, cfg: Config, start: int, reqs: seq<Request>, p: Progress,
                                           k: nat, steps: seq<CaRuns.Step>, query: string)
    requires CaRuns.Inv(w) && IssueAll(cfg, w.db, start, reqs) == Some(p) && k < |p.certs|
    ensures var rows, i := CaRuns.Run(w, IssueSteps(p.certs) + [CaRuns.Save] + steps).db.rows, |w.db.rows| + k;
            CaRuns.Found(rows, i, p.certs[k], query)
  {
    BatchIsRun(w, cfg, start, reqs);
    IssueAdds(cfg, w.db, start, reqs);
    AddedAndSaved(w, IssueSteps(p.certs), p.certs, k, steps, query);
  }
}
