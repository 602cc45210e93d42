/** Runs of `ca` over one index file: operations on the rows in memory, saving them, and
    starting again from the saved file. */
module CaRuns {
  import opened CText
  import opened CaSerial
  import opened CaRevInfo
  import opened CaDatabase

  /** The rows in memory with their indexes, and the rows in the index file. */
  datatype World = World(db: Db, disk: seq<Row>)

  datatype Step =
    | Issue(c: Cert)
    | RevokeCert(c: Cert, revType: RevType, revStr: Option<string>)
    | UpdateDb(time: string -> Option<int>, now: int)
    | Save
    | Restart

  /** A step on the rows in memory. */
  function DbStep(db: Db, s: Step): Db
    requires !s.Save? && !s.Restart?
  {
    match s
    case Issue(c) => if Certify(db, c).Some? then Certify(db, c).value else db
    case RevokeCert(c, revType, revStr) => Revoke(db, c, revType, revStr).0
    case UpdateDb(time, now) => db.(rows := Expire(db.rows, ExpireReach(db.rows, time), time, now))
  }

  function Next(w: World, s: Step): World {
    if s.Save? then w.(disk := w.db.rows)
    else if s.Restart? then w.(db := Indexed(w.disk, w.db.unique))
    else w.(db := DbStep(w.db, s))
  }

  function Run(w: World, steps: seq<Step>): World {
    if steps == [] then w else Next(Run(w, steps[..|steps| - 1]), steps[|steps| - 1])
  }

  ghost predicate Inv(w: World) {
    WellFormed(w.db) && Indexable(w.disk, w.db.unique) && Extends(w.disk, w.db.rows)
  }

  lemma {:induction false} ExtendsReflexive(rows: seq<Row>)
    ensures Extends(rows, rows)
  {
  }

  lemma {:induction false} DbStepKeeps(db: Db, s: Step)
    requires WellFormed(db) && !s.Save? && !s.Restart?
    ensures Kept(db, DbStep(db, s))
  {
    match s
    case Issue(c) => if Certify(db, c).Some? { InsertKeeps(db, NewRow(c)); } else { KeptReflexive(db); }
    case RevokeCert(c, revType, revStr) => RevokeKeeps(db, c, revType, revStr);
    case UpdateDb(time, now) => ExpireKeeps(db, ExpireReach(db.rows, time), time, now);
  }

  lemma {:induction false} MemoryKeeps(w: World, db: Db)
    requires Inv(w) && Kept(w.db, db)
    ensures Inv(w.(db := db))
  {
    ExtendsTransitive(w.disk, w.db.rows, db.rows);
  }

  lemma {:induction false} SaveKeeps(w: World)
    requires Inv(w)
    ensures Inv(w.(disk := w.db.rows))
  {
    ExtendsReflexive(w.db.rows);
    if w.db.unique { NoTwoValidShareName(w.db); }
  }

  lemma {:induction false} RestartKeeps(w: World)
    requires Inv(w)
    ensures Inv(w.(db := Indexed(w.disk, w.db.unique)))
  {
    ExtendsReflexive(w.disk);
    IndexedWellFormed(w.disk, w.db.unique);
  }

  lemma {:induction false} NextKeeps(w: World, s: Step)
    requires Inv(w)
    ensures Inv(Next(w, s)) && Next(w, s).db.unique == w.db.unique
    ensures Extends(w.disk, Next(w, s).disk)
    ensures !s.Restart? ==> Extends(w.db.rows, Next(w, s).db.rows) && w.db.named <= Next(w, s).db.named
  {
    ExtendsReflexive(w.disk);
    ExtendsReflexive(w.db.rows);
    if s.Save? {
      SaveKeeps(w);
    } else if s.Restart? {
      RestartKeeps(w);
    } else {
      DbStepKeeps(w.db, s);
      MemoryKeeps(w, DbStep(w.db, s));
    }
  }

  /** Over every run from a well-formed database: indexes stay consistent, serials distinct,
      valid names distinct under unique subjects, and what is in the file is never lost and
      only ever loses validity. Restarting never fails on an index clash. */
  lemma {:induction false} RunKeeps(w: World, steps: seq<Step>)
    requires Inv(w)
    ensures var w' := Run(w, steps);
            Inv(w') && w'.db.unique == w.db.unique && Extends(w.disk, w'.disk) && Extends(w.disk, w'.db.rows)
            && SerialsDistinct(w'.db.rows) && (w.db.unique ==> ValidNamesDistinct(w'.db.rows))
  {
    if steps != [] {
      var front := steps[..|steps| - 1];
      RunKeeps(w, front);
      NextKeeps(Run(w, front), steps[|steps| - 1]);
      ExtendsTransitive(w.disk, Run(w, front).disk, Run(w, steps).disk);
    } else {
      ExtendsReflexive(w.disk);
    }
    var w' := Run(w, steps);
    ExtendsTransitive(w.disk, w'.disk, w'.db.rows);
    if w.db.unique { NoTwoValidShareName(w'.db); }
  }

  /** Between restarts the rows in memory are never lost either. */
  lemma {:induction false} RunKeepsMemory(w: World, steps: seq<Step>)
    requires Inv(w) && forall k :: 0 <= k < |steps| ==> !steps[k].Restart?
    ensures Extends(w.db.rows, Run(w, steps).db.rows)
  {
    if steps != [] {
      var front := steps[..|steps| - 1];
      RunKeepsMemory(w, front);
      RunKeeps(w, front);
      NextKeeps(Run(w, front), steps[|steps| - 1]);
      ExtendsTransitive(w.db.rows, Run(w, front).db.rows, Run(w, steps).db.rows);
    } else {
      ExtendsReflexive(w.db.rows);
    }
  }

  /** A revoked row of the file is there, unchanged, after any run. */
  lemma {:induction false} RevokedIsFinal(w: World, steps: seq<Step>, i: nat)
    requires Inv(w) && i < |w.disk| && w.disk[i].kind == REVOKED
    ensures i < |Run(w, steps).disk| && Run(w, steps).disk[i] == w.disk[i]
  {
    RunKeeps(w, steps);
    assert Evolves(w.disk[i], Run(w, steps).disk[i]);
  }

  // ----- A recorded certificate is found again -----

  /** The row at i is the record of the certificate. */
  predicate Records(rows: seq<Row>, i: nat, c: Cert) {
    i < |rows| && rows[i].serial == RowSerial(c.serial) && rows[i].name == RowName(c)
  }

  ghost predicate SerialTaken(db: Db, c: Cert) {
    exists i :: 0 <= i < |db.rows| && SameSerial(db.rows[i].serial, RowSerial(c.serial))
  }

  /** Under unique subjects, an indexed row has the name. */
  ghost predicate NameTaken(db: Db, c: Cert) {
    db.unique && exists i :: 0 <= i < |db.rows| && i in db.named && db.rows[i].name == RowName(c)
  }

  lemma {:induction false} LookupsFind(db: Db, c: Cert)
    requires WellFormed(db)
    ensures BySerial(db.rows, RowSerial(c.serial)).Some? <==> SerialTaken(db, c)
    ensures db.unique && ByName(db.rows, db.named, RowName(c)).Some? <==> NameTaken(db, c)
  {
    var key, name := RowSerial(c.serial), RowName(c);
    forall i | 0 <= i < |db.rows| && BySerial(db.rows, key).None? ensures !SameSerial(db.rows[i].serial, key) {
      SerialMissing(db.rows, i, key);
    }
    forall i | 0 <= i < |db.rows| && i in db.named && ByName(db.rows, db.named, name).None?
      ensures db.rows[i].name != name
    {
      NameMissing(db.rows, db.named, i, name);
    }
  }

  /** Certifying is refused exactly when the serial is in use or, under unique subjects, an
      indexed row has the name: a valid row, or one that lost validity since it was indexed. */
  lemma {:induction false} IssueRefused(db: Db, c: Cert)
    requires WellFormed(db)
    ensures Certify(db, c).None? <==> SerialTaken(db, c) || NameTaken(db, c)
  {
    LookupsFind(db, c);
  }

  /** The row of a new certificate. */
  function ValidRow(c: Cert): Row {
    Row('V', c.notAfter, "", RowSerial(c.serial), "unknown", RowName(c))
  }

  /** A certificate that is not refused gets its row, after all others. */
  lemma {:induction false} IssueAppends(db: Db, c: Cert)
    requires WellFormed(db) && !SerialTaken(db, c) && !NameTaken(db, c)
    ensures Certify(db, c).Some? && Certify(db, c).value.rows == db.rows + [ValidRow(c)]
  {
    LookupsFind(db, c);
  }

  /** `-valid` adds a certificate exactly when issuing it would not be refused, and changes nothing
      otherwise. */
  lemma {:induction false} AddValid(db: Db, c: Cert, revStr: Option<string>)
    requires WellFormed(db)
    ensures var (db', ok) := Revoke(db, c, RevValid, revStr);
            (ok <==> !SerialTaken(db, c) && !NameTaken(db, c))
            && (ok ==> db'.rows == db.rows + [ValidRow(c)]) && (!ok ==> db' == db)
  {
    LookupsFind(db, c);
  }

  /** Revoking a certificate that is not recorded adds it first, unless its name is taken; the row
      stays, valid, if the revocation arguments are then found to be bad. */
  lemma {:induction false} RevokeUnrecorded(db: Db, c: Cert, revType: RevType, revStr: Option<string>)
    requires WellFormed(db) && !SerialTaken(db, c) && revType != RevValid
    ensures var (db', ok) := Revoke(db, c, revType, revStr);
            (ok <==> !NameTaken(db, c) && revStr.Some?)
            && (NameTaken(db, c) ==> db' == db)
            && (ok ==> db'.rows == db.rows + [ValidRow(c).(kind := 'R', revDate := revStr.value)])
            && (!ok && !NameTaken(db, c) ==> db'.rows == db.rows + [ValidRow(c)])
  {
    LookupsFind(db, c);
  }

  /** The record of a certificate is found by its serial, passes the name check of
      `do_revoke`, and answers every status query in hexadecimal for its serial. */
  lemma {:induction false} RecordIsFound(rows: seq<Row>, i: nat, c: Cert, query: string)
    requires SerialsDistinct(rows) && Records(rows, i, c)
    ensures BySerial(rows, RowSerial(c.serial)) == Some(i) && rows[i].name == RowName(c)
    ensures AllHex(query) && HexValue(query) == c.serial ==> BySerial(rows, StatusKey(query)) == Some(i)
  {
    SerialFound(rows, i, RowSerial(c.serial));
    if AllHex(query) && HexValue(query) == c.serial {
      StatusKeyMatches(query, c.serial);
      SerialFound(rows, i, StatusKey(query));
    }
  }

  /** The record is there, under its serial and every status query for its number. */
  ghost predicate Found(rows: seq<Row>, i: nat, c: Cert, query: string) {
    Records(rows, i, c) && BySerial(rows, RowSerial(c.serial)) == Some(i)
    && (AllHex(query) && HexValue(query) == c.serial ==> BySerial(rows, StatusKey(query)) == Some(i))
  }

  /** So a saved record is found after any run, and an unsaved one until the next restart. */
  lemma {:induction false} RecordStaysFound(w: World, i: nat, c: Cert, steps: seq<Step>, query: string)
    requires Inv(w)
    requires Records(w.disk, i, c)
             || (Records(w.db.rows, i, c) && forall k :: 0 <= k < |steps| ==> !steps[k].Restart?)
    ensures var rows := Run(w, steps).db.rows;
            Found(rows, i, c, query)
  {
    var rows := Run(w, steps).db.rows;
    RunKeeps(w, steps);
    if Records(w.disk, i, c) {
      assert Evolves(w.disk[i], rows[i]);
    } else {
      RunKeepsMemory(w, steps);
      assert Evolves(w.db.rows[i], rows[i]);
    }
    RecordIsFound(rows, i, c, query);
  }

  lemma {:induction false} RunConcat(w: World, a: seq<Step>, b: seq<Step>)
    ensures Run(w, a + b) == Run(Run(w, a), b)
  {
    if b == [] {
      assert a + b == a;
    } else {
      RunConcat(w, a, b[..|b| - 1]);
      assert (a + b)[..|a + b| - 1] == a + b[..|b| - 1];
    }
  }

  lemma {:induction false} RunOne(w: World, s: Step)
    ensures Run(w, [s]) == Next(w, s)
  {
    assert [s][..0] == [];
  }

  /** A record in memory, once saved, is found after any run that follows. */
  lemma {:induction false} SavedStaysFound(w: World, before: seq<Step>, i: nat, c: Cert, steps: seq<Step>,
                                           query: string)
    requires Inv(w) && Records(Run(w, before).db.rows, i, c)
    ensures var rows := Run(w, before + [Save] + steps).db.rows;
            Found(rows, i, c, query)
  {
    RunKeeps(w, before);
    var recorded := Run(w, before);
    NextKeeps(recorded, Save);
    RunConcat(w, before + [Save], steps);
    RunConcat(w, before, [Save]);
    RunOne(recorded, Save);
    RecordStaysFound(Next(recorded, Save), i, c, steps, query);
  }

  /** A certificate that is issued and saved is found by its serial, passes the name check of
      `do_revoke`, and answers every status query for its number, after any run that follows. */
  lemma {:induction false} IssuedStaysFound(w: World, c: Cert, steps: seq<Step>, query: string)
    requires Inv(w) && Certify(w.db, c).Some?
    ensures var rows := Run(w, [Issue(c)] + [Save] + steps).db.rows;
            var i := |w.db.rows|;
            Found(rows, i, c, query)
  {
    RunOne(w, Issue(c));
    SavedStaysFound(w, [Issue(c)], |w.db.rows|, c, steps, query);
  }

  /** Revoking a certificate whose serial is recorded succeeds exactly when the row has its name, is
      not revoked and the revocation arguments are good, and changes that row alone. */
  lemma {:induction false} RevokeRecorded(db: Db, i: nat, c: Cert, revType: RevType, revStr: Option<string>)
    requires WellFormed(db) && i < |db.rows| && SameSerial(db.rows[i].serial, RowSerial(c.serial))
    ensures var (db', ok) := Revoke(db, c, revType, revStr);
            (ok <==> db.rows[i].name == RowName(c) && revType != RevValid && revStr.Some? && db.rows[i].kind != 'R')
            && (ok ==> db'.rows == db.rows[i := db.rows[i].(kind := 'R', revDate := revStr.value)])
            && (!ok ==> db' == db)
  {
    SerialFound(db.rows, i, RowSerial(c.serial));
  }

  // ----- Saving and starting again -----

  /** What is saved is what a restart finds. */
  lemma {:induction false} SavedIsReloaded(w: World, steps: seq<Step>)
    ensures var saved := Run(w, steps).db;
            Run(w, steps + [Save] + [Restart]) == World(Indexed(saved.rows, saved.unique), saved.rows)
  {
    RunConcat(w, steps + [Save], [Restart]);
    RunConcat(w, steps, [Save]);
    RunOne(Run(w, steps), Save);
    RunOne(Next(Run(w, steps), Save), Restart);
  }

  lemma {:induction false} UnsavedSteps(w: World, steps: seq<Step>)
    requires Inv(w) && forall k :: 0 <= k < |steps| ==> !steps[k].Save?
    ensures Run(w, steps).disk == w.disk
  {
    if steps != [] { UnsavedSteps(w, steps[..|steps| - 1]); }
  }

  /** What is not saved is gone after a restart, whatever was done. */
  lemma {:induction false} UnsavedIsLost(w: World, steps: seq<Step>)
    requires Inv(w) && forall k :: 0 <= k < |steps| ==> !steps[k].Save?
    ensures Run(w, steps + [Restart]) == World(Indexed(w.disk, w.db.unique), w.disk)
  {
    UnsavedSteps(w, steps);
    RunKeeps(w, steps);
    RunConcat(w, steps, [Restart]);
    RunOne(Run(w, steps), Restart);
  }

  /** After an update no valid row is due, if no date is malformed, and nothing else has changed. */
  lemma {:induction false} UpdateExpires(w: World, steps: seq<Step>, time: string -> Option<int>, now: int, i: nat)
    requires i < |Run(w, steps).db.rows|
    ensures var row := Run(w, steps).db.rows[i];
            var w' := Run(w, steps + [UpdateDb(time, now)]);
            && i < |w'.db.rows| && w'.disk == Run(w, steps).disk
            && w'.db.rows[i] == if row.kind == 'V' && DatesOk(Run(w, steps).db.rows, time, i)
                                   && time(row.expDate).value <= now
                                then row.(kind := 'E') else row
  {
    RunConcat(w, steps, [UpdateDb(time, now)]);
    RunOne(Run(w, steps), UpdateDb(time, now));
    ExpiredRow(Run(w, steps).db.rows, time, now, i);
  }

  // ----- A certificate stays valid until something is done to it -----

  /** The step may change the row of the certificate. */
  predicate Touches(s: Step, c: Cert) {
    s.UpdateDb? || (s.RevokeCert? && s.c.serial == c.serial)
  }

  lemma {:induction false} OtherSerial(rows: seq<Row>, i: nat, c: Cert, d: Cert)
    requires Records(rows, i, c) && c.serial != d.serial
    ensures BySerial(rows, RowSerial(d.serial)) != Some(i)
  {
    RowSerialReads(c.serial);
    RowSerialReads(d.serial);
    if SameSerial(RowSerial(c.serial), RowSerial(d.serial)) {
      SameSerialSameValue(RowSerial(c.serial), RowSerial(d.serial));
    }
  }

  lemma {:induction false} OtherRevoked(db: Db, i: nat, c: Cert, d: Cert, revType: RevType, revStr: Option<string>)
    requires Records(db.rows, i, c) && c.serial != d.serial
    ensures var rows := Revoke(db, d, revType, revStr).0.rows; i < |rows| && rows[i] == db.rows[i]
  {
    OtherSerial(db.rows, i, c, d);
  }

  lemma {:induction false} UntouchedRow(db: Db, s: Step, i: nat, c: Cert)
    requires Records(db.rows, i, c) && !s.Save? && !s.Restart? && !Touches(s, c)
    ensures i < |DbStep(db, s).rows| && DbStep(db, s).rows[i] == db.rows[i]
  {
    match s
    case Issue(d) =>
    case RevokeCert(d, revType, revStr) => OtherRevoked(db, i, c, d, revType, revStr);
  }

  /** A row, in memory and in the file, is the same after any steps that do not touch it. */
  lemma {:induction false} UntouchedStays(w: World, steps: seq<Step>, i: nat, c: Cert)
    requires Records(w.disk, i, c) && i < |w.db.rows| && w.db.rows[i] == w.disk[i]
    requires forall k :: 0 <= k < |steps| ==> !Touches(steps[k], c)
    ensures var w' := Run(w, steps);
            i < |w'.disk| && i < |w'.db.rows| && w'.disk[i] == w'.db.rows[i] == w.disk[i]
  {
    if steps != [] {
      var front, s := steps[..|steps| - 1], steps[|steps| - 1];
      UntouchedStays(w, front, i, c);
      if !s.Save? && !s.Restart? { UntouchedRow(Run(w, front).db, s, i, c); }
    }
  }

  /** A certificate issued and saved keeps its row until it is revoked or the database is updated. */
  lemma {:induction false} IssuedStaysValid(w: World, c: Cert, steps: seq<Step>)
    requires Inv(w) && !SerialTaken(w.db, c) && !NameTaken(w.db, c)
    requires forall k :: 0 <= k < |steps| ==> !Touches(steps[k], c)
    ensures var w', i := Run(w, [Issue(c)] + [Save] + steps), |w.db.rows|;
            i < |w'.disk| && i < |w'.db.rows| && w'.disk[i] == w'.db.rows[i] == ValidRow(c)
  {
    IssueAppends(w.db, c);
    RunConcat(w, [Issue(c)] + [Save], steps);
    RunConcat(w, [Issue(c)], [Save]);
    RunOne(w, Issue(c));
    RunOne(Next(w, Issue(c)), Save);
    UntouchedStays(Next(Next(w, Issue(c)), Save), steps, |w.db.rows|, c);
  }

  // ----- The stale name index -----

  /** A name held by a row that lost validity since it was indexed is refused until the
      index is rebuilt, and accepted then. */
  lemma {:induction false} StaleNameIsFreedByRestart(db: Db, i: nat, c: Cert)
    requires WellFormed(db) && db.unique && i in db.named && db.rows[i].kind != VALID && db.rows[i].name == RowName(c)
    requires BySerial(db.rows, RowSerial(c.serial)).None?
    ensures Certify(db, c).None? && Certify(Indexed(db.rows, true), c).Some?
  {
    NameFound(db, i);
    assert forall k :: 0 <= k < |db.rows| && db.rows[k].kind == VALID ==> k != i && db.rows[k].name != RowName(c);
  }

  /** In a run: the name is refused, and accepted once the rows have been saved and loaded again. */
  lemma {:induction false} StaleNameInRun(w: World, i: nat, c: Cert)
    requires Inv(w) && w.db.unique && i in w.db.named && w.db.rows[i].kind != VALID && w.db.rows[i].name == RowName(c)
    requires BySerial(w.db.rows, RowSerial(c.serial)).None?
    ensures Certify(w.db, c).None? && Certify(Run(w, [] + [Save] + [Restart]).db, c).Some?
  {
    StaleNameIsFreedByRestart(w.db, i, c);
    SavedIsReloaded(w, []);
  }

  /** Such rows arise in every run: a row once indexed stays indexed until a restart, under
      the same name, whether or not it stays valid. */
  lemma {:induction false} IndexedStaysIndexed(w: World, steps: seq<Step>, i: nat)
    requires Inv(w) && i in w.db.named && forall k :: 0 <= k < |steps| ==> !steps[k].Restart?
    ensures var db := Run(w, steps).db;
            i in db.named && i < |db.rows| && db.rows[i].name == w.db.rows[i].name
  {
    if steps != [] {
      var front := steps[..|steps| - 1];
      IndexedStaysIndexed(w, front, i);
      RunKeeps(w, front);
      NextKeeps(Run(w, front), steps[|steps| - 1]);
      assert Evolves(Run(w, front).db.rows[i], Run(w, steps).db.rows[i]);
    }
  }
}
