/** Whole runs that keep the file loadable: what the program writes passes its own load checks, and
    the CRL and OCSP agree on it. */
module CaLoaded {
  import opened CText
  import opened CaSerial
  import opened CaRevInfo
  import opened CaDatabase
  import opened CaRuns
  import opened CaReports

  /** Rows that pass the load checks, with serials as the program prints them. */
  ghost predicate Loadable(syn: Syntax, isTime: string -> bool, rows: seq<Row>) {
    forall i :: 0 <= i < |rows| ==> LoadableRow(syn, isTime, rows[i])
  }

  ghost predicate LoadableRow(syn: Syntax, isTime: string -> bool, r: Row) {
    RowOk(syn, isTime, r) && WellPrinted(r.serial)
  }

  /** The string for a revocation made at a time that is written as a UTCTime. */
  ghost predicate WrittenAt(syn: Syntax, revType: RevType, revStr: Option<string>, arg: string, now: Time) {
    now.Valid() && 1950 <= now.year < 2050 && revStr == RevocationStr(syn, revType, arg, PrintTime(now))
  }

  /** A step as the program takes it from 1950 to 2049: certificates have well-formed end dates, and
      revocation strings come from `make_revocation_str`. */
  ghost predicate InTime(syn: Syntax, isTime: string -> bool, s: Step) {
    match s
    case Issue(c) => isTime(c.notAfter)
    case RevokeCert(c, revType, revStr) =>
      isTime(c.notAfter) && exists arg, now :: WrittenAt(syn, revType, revStr, arg, now)
    case _ => true
  }

  /** The same as a function, so that rows can be followed without looking into them. */
  ghost function LoadableFn(syn: Syntax, isTime: string -> bool): Row -> bool {
    (r: Row) => LoadableRow(syn, isTime, r)
  }

  ghost predicate All(rows: seq<Row>, ok: Row -> bool) {
    forall i :: 0 <= i < |rows| ==> ok(rows[i])
  }

  lemma {:induction false} AllChanged(rows: seq<Row>, ok: Row -> bool, i: nat, row: Row)
    requires All(rows, ok) && i < |rows| && ok(row)
    ensures All(rows[i := row], ok)
  {
  }

  lemma {:induction false} AllAdded(rows: seq<Row>, ok: Row -> bool, row: Row)
    requires All(rows, ok) && ok(row)
    ensures All(rows + [row], ok)
  {
  }

  lemma {:induction false} AllExpired(rows: seq<Row>, n: nat, time: string -> Option<int>, now: int, ok: Row -> bool)
    requires All(rows, ok) && n <= |rows|
    requires forall r: Row :: ok(r) && r.kind == VALID ==> ok(r.(kind := EXPIRED))
    ensures All(Expire(rows, n, time, now), ok)
  {
    if n > 0 {
      AllExpired(rows, n - 1, time, now, ok);
      ExpireStep(rows, n - 1, time, now);
      var r, row := Expire(rows, n - 1, time, now), rows[n - 1];
      if Expire(rows, n, time, now) != r { AllChanged(r, ok, n - 1, row.(kind := EXPIRED)); }
    }
  }

  lemma {:induction false} AllLoadable(syn: Syntax, isTime: string -> bool, rows: seq<Row>)
    ensures Loadable(syn, isTime, rows) <==> All(rows, LoadableFn(syn, isTime))
  {
  }

  lemma {:induction false} AddedLoadable(syn: Syntax, isTime: string -> bool, rows: seq<Row>, c: Cert)
    requires Loadable(syn, isTime, rows) && isTime(c.notAfter)
    ensures Loadable(syn, isTime, rows + [NewRow(c)])
  {
    AddedRowOk(syn, isTime, c);
    AllLoadable(syn, isTime, rows);
    AllAdded(rows, LoadableFn(syn, isTime), NewRow(c));
    AllLoadable(syn, isTime, rows + [NewRow(c)]);
  }

  lemma {:induction false} ChangedLoadable(syn: Syntax, isTime: string -> bool, rows: seq<Row>, i: nat, row: Row)
    requires Loadable(syn, isTime, rows) && i < |rows| && LoadableRow(syn, isTime, row)
    ensures Loadable(syn, isTime, rows[i := row])
  {
    AllLoadable(syn, isTime, rows);
    AllChanged(rows, LoadableFn(syn, isTime), i, row);
    AllLoadable(syn, isTime, rows[i := row]);
  }

  lemma {:induction false} RevokedLoadable(syn: Syntax, isTime: string -> bool, db: Db, c: Cert, i: nat,
                                           revType: RevType, revStr: Option<string>)
    requires Loadable(syn, isTime, db.rows) && i < |db.rows|
    requires exists arg, now :: WrittenAt(syn, revType, revStr, arg, now)
    ensures Loadable(syn, isTime, RevokeFound(db, c, i, revType, revStr).0.rows)
  {
    var arg, now :| WrittenAt(syn, revType, revStr, arg, now);
    assert LoadableRow(syn, isTime, db.rows[i]);
    if revStr.Some? {
      RevokedRowOk(syn, isTime, db.rows[i], revType, arg, now);
      ChangedLoadable(syn, isTime, db.rows, i, db.rows[i].(kind := REVOKED, revDate := revStr.value));
    }
  }

  lemma {:induction false} RevokeLoadable(syn: Syntax, isTime: string -> bool, db: Db, c: Cert, revType: RevType,
                                          revStr: Option<string>)
    requires Loadable(syn, isTime, db.rows) && InTime(syn, isTime, RevokeCert(c, revType, revStr))
    ensures Loadable(syn, isTime, Revoke(db, c, revType, revStr).0.rows)
  {
    match BySerial(db.rows, RowSerial(c.serial))
    case Some(i) => RevokedLoadable(syn, isTime, db, c, i, revType, revStr);
    case None =>
      if Insert(db, NewRow(c)).Some? {
        AddedLoadable(syn, isTime, db.rows, c);
        RevokedLoadable(syn, isTime, Insert(db, NewRow(c)).value, c, |db.rows|, revType, revStr);
      }
  }

  lemma {:induction false} ExpireLoadable(syn: Syntax, isTime: string -> bool, rows: seq<Row>, n: nat,
                                          time: string -> Option<int>, now: int)
    requires Loadable(syn, isTime, rows) && n <= |rows|
    ensures Loadable(syn, isTime, Expire(rows, n, time, now))
  {
    AllLoadable(syn, isTime, rows);
    AllExpired(rows, n, time, now, LoadableFn(syn, isTime));
    AllLoadable(syn, isTime, Expire(rows, n, time, now));
  }

  lemma {:induction false} NextLoadable(syn: Syntax, isTime: string -> bool, w: World, s: Step)
    requires Loadable(syn, isTime, w.db.rows) && Loadable(syn, isTime, w.disk) && InTime(syn, isTime, s)
    ensures Loadable(syn, isTime, Next(w, s).db.rows) && Loadable(syn, isTime, Next(w, s).disk)
  {
    match s
    case Issue(c) => if Certify(w.db, c).Some? { AddedLoadable(syn, isTime, w.db.rows, c); }
    case RevokeCert(c, revType, revStr) => RevokeLoadable(syn, isTime, w.db, c, revType, revStr);
    case UpdateDb(time, now) => ExpireLoadable(syn, isTime, w.db.rows, ExpireReach(w.db.rows, time), time, now);
    case _ =>
  }

  /** From a loadable file, every run of such steps keeps the rows in memory and in the file loadable:
      a restart never fails its load checks. */
  lemma {:induction false} RunLoadable(syn: Syntax, isTime: string -> bool, w: World, steps: seq<Step>)
    requires Loadable(syn, isTime, w.db.rows) && Loadable(syn, isTime, w.disk)
    requires forall k :: 0 <= k < |steps| ==> InTime(syn, isTime, steps[k])
    ensures var w' := Run(w, steps); Loadable(syn, isTime, w'.db.rows) && Loadable(syn, isTime, w'.disk)
  {
    if steps != [] {
      RunLoadable(syn, isTime, w, steps[..|steps| - 1]);
      NextLoadable(syn, isTime, Run(w, steps[..|steps| - 1]), steps[|steps| - 1]);
    }
  }

  lemma {:induction false} LoadableAgrees(syn: Syntax, isTime: string -> bool, rows: seq<Row>)
    requires Loadable(syn, isTime, rows) && SerialsDistinct(rows)
    ensures RowsOk(syn, isTime, rows) && Agree(syn, rows)
  {
    forall i | 0 <= i < |rows| ensures RowOk(syn, isTime, rows[i]) { assert LoadableRow(syn, isTime, rows[i]); }
    forall e | e in CrlEntries(syn, rows) ensures PrintedFor(syn, rows, e) {
      CrlListsRevoked(syn, rows, e);
      var i :| 0 <= i < |rows| && RevokedAs(syn, rows[i], e);
      assert LoadableRow(syn, isTime, rows[i]) && EntryOf(syn, rows[i]) == Some(e);
    }
    OcspAgreesWithCrl(syn, isTime, rows);
  }

  /** So over every such run the saved file passes the load checks, and OCSP says "revoked", with
      the same data, for exactly the entries of the CRL made from it. */
  lemma {:induction false} RunAgrees(syn: Syntax, isTime: string -> bool, w: World, steps: seq<Step>)
    requires Inv(w) && Loadable(syn, isTime, w.db.rows) && Loadable(syn, isTime, w.disk)
    requires forall k :: 0 <= k < |steps| ==> InTime(syn, isTime, steps[k])
    ensures RowsOk(syn, isTime, Run(w, steps).disk) && Agree(syn, Run(w, steps).disk)
  {
    RunLoadable(syn, isTime, w, steps);
    RunKeeps(w, steps);
    LoadableAgrees(syn, isTime, Run(w, steps).disk);
  }

  // ----- A revocation reaches the reports -----

  /** The entry of a revoked row with a written field is what was asked. */
  lemma {:induction false} WrittenEntry(syn: Syntax, r: Row, v: int, revType: RevType, arg: string, now: Time)
    requires r.kind == REVOKED && r.serial == RowSerial(v) && WrittenAt(syn, revType, Some(r.revDate), arg, now)
    ensures Unpack(syn, r.revDate) == Some(Asked(revType, arg, PrintTime(now)))
    ensures EntryOf(syn, r) == Some(CrlEntry(v, Asked(revType, arg, PrintTime(now))))
  {
    RevocationRoundTrip(syn, revType, arg, now);
    RowSerialReads(v);
  }

  /** The answer for a recorded certificate, by the type of its row. */
  lemma {:induction false} RecordIsAnswered(syn: Syntax, rows: seq<Row>, i: nat, c: Cert)
    requires SerialsDistinct(rows) && Records(rows, i, c)
    ensures var answer := OcspAnswer(syn, rows, true, c.serial);
            && (answer == Good <==> rows[i].kind == 'V')
            && (answer == NoAnswer <==> rows[i].kind != 'V' && rows[i].kind != 'R')
            && (rows[i].kind == 'R' && Unpack(syn, rows[i].revDate).Some? ==>
                  answer == Revoked(Unpack(syn, rows[i].revDate).value))
  {
    RecordIsFound(rows, i, c, "");
  }

  lemma {:induction false} EntryIsListed(syn: Syntax, rows: seq<Row>, i: nat, e: CrlEntry)
    requires i < |rows| && EntryOf(syn, rows[i]) == Some(e)
    ensures e in CrlEntries(syn, rows)
  {
    EntryOfRow(syn, rows[i], e);
    CrlListsRevoked(syn, rows, e);
  }

  /** Such a row is reported, by OCSP and on the CRL, with what was asked. */
  lemma {:induction false} WrittenIsReported(syn: Syntax, rows: seq<Row>, i: nat, c: Cert, revType: RevType,
                                             arg: string, now: Time)
    requires SerialsDistinct(rows) && Records(rows, i, c) && rows[i].kind == REVOKED
    requires WrittenAt(syn, revType, Some(rows[i].revDate), arg, now)
    ensures var info := Asked(revType, arg, PrintTime(now));
            OcspAnswer(syn, rows, true, c.serial) == Revoked(info) && CrlEntry(c.serial, info) in CrlEntries(syn, rows)
  {
    var info := Asked(revType, arg, PrintTime(now));
    WrittenEntry(syn, rows[i], c.serial, revType, arg, now);
    EntryIsListed(syn, rows, i, CrlEntry(c.serial, info));
    RecordIsAnswered(syn, rows, i, c);
  }

  /** The row of a revoked certificate, saved, is in the file after any run, as it was written. */
  lemma {:induction false} RevokedStays(w: World, i: nat, c: Cert, revType: RevType, revStr: string, steps: seq<Step>)
    requires Inv(w) && Records(w.db.rows, i, c) && w.db.rows[i].kind != REVOKED && revType != RevValid
    ensures var disk := Run(w, [RevokeCert(c, revType, Some(revStr))] + [Save] + steps).disk;
            SerialsDistinct(disk) && Records(disk, i, c) && disk[i].kind == REVOKED && disk[i].revDate == revStr
  {
    var revoke := RevokeCert(c, revType, Some(revStr));
    RevokeRecorded(w.db, i, c, revType, Some(revStr));
    var revoked := Next(w, revoke);
    var saved := Next(revoked, Save);
    RunConcat(w, [revoke] + [Save], steps);
    RunConcat(w, [revoke], [Save]);
    RunOne(w, revoke);
    RunOne(revoked, Save);
    NextKeeps(w, revoke);
    NextKeeps(revoked, Save);
    RevokedIsFinal(saved, steps, i);
    RunKeeps(saved, steps);
  }

  /** Revoking a recorded certificate with a good argument, from 1950 to 2049, and saving: after any
      run that follows, OCSP answers "revoked" for its serial with the reason, time and argument
      that were asked for, and the CRL has the same entry. */
  lemma {:induction false} RevocationIsReported(syn: Syntax, w: World, i: nat, c: Cert, revType: RevType, arg: string,
                                                now: Time, steps: seq<Step>)
    requires Inv(w) && Records(w.db.rows, i, c) && w.db.rows[i].kind != REVOKED && revType != RevValid
    requires now.Valid() && 1950 <= now.year < 2050 && RevocationStr(syn, revType, arg, PrintTime(now)).Some?
    ensures var revStr := RevocationStr(syn, revType, arg, PrintTime(now));
            var disk := Run(w, [RevokeCert(c, revType, revStr)] + [Save] + steps).disk;
            var info := Asked(revType, arg, PrintTime(now));
            OcspAnswer(syn, disk, true, c.serial) == Revoked(info) && CrlEntry(c.serial, info) in CrlEntries(syn, disk)
  {
    var revStr := RevocationStr(syn, revType, arg, PrintTime(now)).value;
    RevokedStays(w, i, c, revType, revStr, steps);
    var disk := Run(w, [RevokeCert(c, revType, Some(revStr))] + [Save] + steps).disk;
    WrittenIsReported(syn, disk, i, c, revType, arg, now);
  }

  // ----- An issued certificate reaches the reports -----

  /** A certificate issued and saved is in the file after any run, and OCSP answers by what became of
      its row: good while it is valid, nothing once it is expired, and otherwise it was revoked. */
  lemma {:induction false} IssuedIsAnswered(syn: Syntax, w: World, c: Cert, steps: seq<Step>)
    requires Inv(w) && !SerialTaken(w.db, c) && !NameTaken(w.db, c)
    ensures var disk, i := Run(w, [Issue(c)] + [Save] + steps).disk, |w.db.rows|;
            var answer := OcspAnswer(syn, disk, true, c.serial);
            && Records(disk, i, c) && disk[i].kind in {'V', 'E', 'R'}
            && (answer == Good <==> disk[i].kind == 'V') && (answer == NoAnswer <==> disk[i].kind == 'E')
  {
    var saved, i := Next(Next(w, Issue(c)), Save), |w.db.rows|;
    IssueAppends(w.db, c);
    RunConcat(w, [Issue(c)] + [Save], steps);
    RunConcat(w, [Issue(c)], [Save]);
    RunOne(w, Issue(c));
    RunOne(Next(w, Issue(c)), Save);
    NextKeeps(w, Issue(c));
    NextKeeps(Next(w, Issue(c)), Save);
    RunKeeps(saved, steps);
    assert Evolves(saved.disk[i], Run(saved, steps).disk[i]);
    RecordIsAnswered(syn, Run(saved, steps).disk, i, c);
  }

  /** So OCSP says "good" of it as long as it is not revoked and the database is not updated. */
  lemma {:induction false} IssuedIsGood(syn: Syntax, w: World, c: Cert, steps: seq<Step>)
    requires Inv(w) && !SerialTaken(w.db, c) && !NameTaken(w.db, c)
    requires forall k :: 0 <= k < |steps| ==> !Touches(steps[k], c)
    ensures OcspAnswer(syn, Run(w, [Issue(c)] + [Save] + steps).disk, true, c.serial) == Good
  {
    IssuedStaysValid(w, c, steps);
    IssuedIsAnswered(syn, w, c, steps);
  }
}
