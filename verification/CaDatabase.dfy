/** The CA's index file in memory: rows with a type letter that `do_updatedb` and `do_revoke`
    change in place, a serial index over all rows, and a name index over the rows that were
    valid when they were indexed. Lookup in an index is a search. */
module CaDatabase {
  import opened CText
  import opened CaSerial
  import opened CaRevInfo

  const REVOKED := 'R'
  const EXPIRED := 'E'
  const VALID := 'V'
  const SUSPENDED := 'S'

  datatype Row = Row(kind: char, expDate: string, revDate: string, serial: string, file: string, name: string)

  /** What the database needs of a certificate: its one-line subject, serial and end date. */
  datatype Cert = Cert(subject: string, serial: int, notAfter: string)

  /** An empty subject is replaced by the serial number. */
  function RowName(c: Cert): string {
    if c.subject == "" then RowSerial(c.serial) else c.subject
  }

  function NewRow(c: Cert): Row {
    Row(VALID, c.notAfter, "", RowSerial(c.serial), "unknown", RowName(c))
  }

  /** A subject is the name of its row. Certificates without one are told apart by their serials, so
      they never clash with each other. */
  lemma {:induction false} RowNames(c: Cert, d: Cert)
    ensures c.subject != "" ==> RowName(c) == c.subject
    ensures c.subject == "" && d.subject == "" ==> (RowName(c) == RowName(d) <==> c.serial == d.serial)
  {
    RowSerialReads(c.serial);
    RowSerialReads(d.serial);
  }

  /** The tables: rows, the `unique_subject` attribute, and the rows in the name index. */
  datatype Db = Db(rows: seq<Row>, unique: bool, named: set<nat>)

  // ----- Index lookups -----

  function BySerial(rows: seq<Row>, key: string): (r: Option<nat>)
    ensures r.Some? ==> r.value < |rows| && SameSerial(rows[r.value].serial, key)
  {
    if rows == [] then None else
      var last := |rows| - 1;
      var r := BySerial(rows[..last], key);
      if r.None? && SameSerial(rows[last].serial, key) then Some(last) else r
  }

  function ByName(rows: seq<Row>, named: set<nat>, name: string): (r: Option<nat>)
    ensures r.Some? ==> r.value < |rows| && r.value in named && rows[r.value].name == name
  {
    if rows == [] then None else
      var last := |rows| - 1;
      var r := ByName(rows[..last], named, name);
      if r.None? && last in named && rows[last].name == name then Some(last) else r
  }

  ghost predicate SerialsDistinct(rows: seq<Row>) {
    forall i, j :: 0 <= i < j < |rows| ==> !SameSerial(rows[i].serial, rows[j].serial)
  }

  ghost predicate ValidNamesDistinct(rows: seq<Row>) {
    forall i, j :: 0 <= i < j < |rows| && rows[i].kind == rows[j].kind == VALID ==> rows[i].name != rows[j].name
  }

  /** The name index is consistent; it may hold rows that are no longer valid. */
  ghost predicate NamesOk(db: Db) {
    (forall i :: i in db.named ==> i < |db.rows|)
    && (db.unique ==> forall i :: 0 <= i < |db.rows| && db.rows[i].kind == VALID ==> i in db.named)
    && (forall i, j :: i in db.named && j in db.named && i != j ==> db.rows[i].name != db.rows[j].name)
    && (!db.unique ==> db.named == {})
  }

  ghost predicate WellFormed(db: Db) {
    SerialsDistinct(db.rows) && NamesOk(db)
  }

  /** With unique subjects no two valid rows share a name, stale index or not. */
  lemma {:induction false} NoTwoValidShareName(db: Db)
    requires WellFormed(db) && db.unique
    ensures ValidNamesDistinct(db.rows)
  {
  }

  lemma {:induction false} SameSerialUnique(rows: seq<Row>, i: nat, j: nat, key: string)
    requires SerialsDistinct(rows) && i < |rows| && j < |rows|
    requires SameSerial(rows[i].serial, key) && SameSerial(rows[j].serial, key)
    ensures i == j
  {
  }

  lemma {:induction false} SerialFound(rows: seq<Row>, i: nat, key: string)
    requires SerialsDistinct(rows) && i < |rows| && SameSerial(rows[i].serial, key)
    ensures BySerial(rows, key) == Some(i)
  {
    if BySerial(rows, key).None? {
      SerialMissing(rows, i, key);
    } else {
      SameSerialUnique(rows, i, BySerial(rows, key).value, key);
    }
  }

  lemma {:induction false} SerialMissing(rows: seq<Row>, i: nat, key: string)
    requires i < |rows| && BySerial(rows, key).None?
    ensures !SameSerial(rows[i].serial, key)
  {
    if i < |rows| - 1 { SerialMissing(rows[..|rows| - 1], i, key); }
  }

  lemma {:induction false} NameMissing(rows: seq<Row>, named: set<nat>, i: nat, name: string)
    requires i < |rows| && i in named && ByName(rows, named, name).None?
    ensures rows[i].name != name
  {
    if i < |rows| - 1 { NameMissing(rows[..|rows| - 1], named, i, name); }
  }

  lemma {:induction false} NameFound(db: Db, i: nat)
    requires NamesOk(db) && i in db.named
    ensures ByName(db.rows, db.named, db.rows[i].name) == Some(i)
  {
    if ByName(db.rows, db.named, db.rows[i].name).None? { NameMissing(db.rows, db.named, i, db.rows[i].name); }
  }

  // ----- The operations -----

  /** `TXT_DB_insert`: refused on a clash with a qualifying index entry. */
  function Insert(db: Db, row: Row): Option<Db> {
    if BySerial(db.rows, row.serial).Some? then None
    else if db.unique && row.kind == VALID && ByName(db.rows, db.named, row.name).Some? then None
    else Some(db.(rows := db.rows + [row],
                  named := if db.unique && row.kind == VALID then db.named + {|db.rows|} else db.named))
  }

  /** The database part of `do_body`. */
  function Certify(db: Db, c: Cert): Option<Db> {
    if db.unique && ByName(db.rows, db.named, RowName(c)).Some? then None
    else if BySerial(db.rows, RowSerial(c.serial)).Some? then None
    else Insert(db, NewRow(c))
  }

  /** A certificate found in the database, revoked. */
  function RevokeFound(db: Db, c: Cert, i: nat, revType: RevType, revStr: Option<string>): (Db, bool)
    requires i < |db.rows|
  {
    if db.rows[i].name != RowName(c) || revType == RevValid || db.rows[i].kind == REVOKED || revStr.None? then
      (db, false)
    else (db.(rows := db.rows[i := db.rows[i].(kind := REVOKED, revDate := revStr.value)]), true)
  }

  /** `do_revoke`: a certificate not in the database is added first. */
  function Revoke(db: Db, c: Cert, revType: RevType, revStr: Option<string>): (Db, bool) {
    match BySerial(db.rows, RowSerial(c.serial))
    case Some(i) => RevokeFound(db, c, i, revType, revStr)
    case None =>
      match Insert(db, NewRow(c))
      case None => (db, false)
      case Some(added) =>
        if revType == RevValid then (added, true) else RevokeFound(added, c, |db.rows|, revType, revStr)
  }

  /** `do_updatedb` on the first n rows; `time` is `ASN1_TIME_set_string` followed by the
      comparison value, and a malformed date stops the walk. */
  function Expire(rows: seq<Row>, n: nat, time: string -> Option<int>, now: int): (r: seq<Row>)
    requires n <= |rows|
    ensures |r| == |rows|
  {
    if n == 0 then rows else
      var r := Expire(rows, n - 1, time, now);
      if rows[n - 1].kind == VALID && time(rows[n - 1].expDate).Some? && time(rows[n - 1].expDate).value <= now
      then r[n - 1 := r[n - 1].(kind := EXPIRED)] else r
  }

  /** The rows whose status differs. */
  ghost function Changed(a: seq<Row>, b: seq<Row>): set<nat> {
    set i: nat | i < |a| && i < |b| && a[i].kind != b[i].kind
  }

  /** How many rows the walk covers: all of them, or those before a malformed date. */
  function ExpireReach(rows: seq<Row>, time: string -> Option<int>): (n: nat)
    ensures n <= |rows|
    ensures forall i :: 0 <= i < n && rows[i].kind == VALID ==> time(rows[i].expDate).Some?
    ensures n < |rows| ==> rows[n].kind == VALID && time(rows[n].expDate).None?
  {
    if rows == [] then 0 else
      var last := |rows| - 1;
      var n := ExpireReach(rows[..last], time);
      if n < last || (rows[last].kind == VALID && time(rows[last].expDate).None?) then n else last + 1
  }

  /** Load and index a saved file. */
  function Indexed(rows: seq<Row>, unique: bool): Db {
    Db(rows, unique, if unique then set i: nat | i < |rows| && rows[i].kind == VALID else {})
  }

  /** Revoking a certificate that was just added is revoking it as if it had been there. */
  lemma {:induction false} RevokeAgain(db: Db, added: Db, c: Cert, revType: RevType, revStr: Option<string>)
    requires WellFormed(added) && BySerial(db.rows, RowSerial(c.serial)).None? && revType != RevValid
    requires Insert(db, NewRow(c)) == Some(added)
    ensures BySerial(added.rows, RowSerial(c.serial)) == Some(|db.rows|)
    ensures Revoke(added, c, revType, revStr) == Revoke(db, c, revType, revStr)
  {
    SerialFound(added.rows, |db.rows|, RowSerial(c.serial));
  }

  // ----- What every operation keeps -----

  /** A row may only lose validity: valid to expired, anything not revoked to revoked; all
      else stays, and a revoked row does not change. */
  predicate Evolves(a: Row, b: Row) {
    a.serial == b.serial && a.name == b.name && a.expDate == b.expDate && a.file == b.file
    && ((a.kind == b.kind && a.revDate == b.revDate)
        || (a.kind == VALID && b.kind == EXPIRED && a.revDate == b.revDate)
        || (a.kind != REVOKED && b.kind == REVOKED))
  }

  /** Rows are kept in place and only new ones are added. */
  ghost predicate Extends(a: seq<Row>, b: seq<Row>) {
    |a| <= |b| && forall i :: 0 <= i < |a| ==> Evolves(a[i], b[i])
  }

  lemma {:induction false} ExtendsTransitive(a: seq<Row>, b: seq<Row>, c: seq<Row>)
    requires Extends(a, b) && Extends(b, c)
    ensures Extends(a, c)
  {
    forall i | 0 <= i < |a|
      ensures Evolves(a[i], c[i])
    {
      assert Evolves(a[i], b[i]) && Evolves(b[i], c[i]);
    }
  }

  /** What every operation in memory keeps. */
  ghost predicate Kept(a: Db, b: Db) {
    WellFormed(b) && Extends(a.rows, b.rows) && a.unique == b.unique && a.named <= b.named
  }

  lemma {:induction false} KeptReflexive(db: Db)
    requires WellFormed(db)
    ensures Kept(db, db)
  {
  }

  lemma {:induction false} KeptTransitive(a: Db, b: Db, c: Db)
    requires Kept(a, b) && Kept(b, c)
    ensures Kept(a, c)
  {
    ExtendsTransitive(a.rows, b.rows, c.rows);
  }

  lemma {:induction false} InsertKeepsSerials(rows: seq<Row>, row: Row)
    requires SerialsDistinct(rows) && BySerial(rows, row.serial).None?
    ensures SerialsDistinct(rows + [row])
  {
    forall i, j | 0 <= i < j < |rows + [row]| ensures !SameSerial((rows + [row])[i].serial, (rows + [row])[j].serial) {
      if j == |rows| { SerialMissing(rows, i, row.serial); }
    }
  }

  lemma {:induction false} InsertKeepsNames(db: Db, row: Row)
    requires NamesOk(db)
    requires db.unique && row.kind == VALID ==> ByName(db.rows, db.named, row.name).None?
    ensures NamesOk(db.(rows := db.rows + [row],
                        named := if db.unique && row.kind == VALID then db.named + {|db.rows|} else db.named))
  {
    if db.unique && row.kind == VALID {
      forall i | i in db.named ensures db.rows[i].name != row.name {
        NameMissing(db.rows, db.named, i, row.name);
      }
    }
  }

  lemma {:induction false} ExtendsNext(rows: seq<Row>, row: Row)
    ensures Extends(rows, rows + [row])
  {
  }

  lemma {:induction false} InsertKeeps(db: Db, row: Row)
    requires WellFormed(db) && Insert(db, row).Some?
    ensures Kept(db, Insert(db, row).value)
  {
    InsertKeepsSerials(db.rows, row);
    InsertKeepsNames(db, row);
    ExtendsNext(db.rows, row);
  }

  lemma {:induction false} ExpireEvolves(rows: seq<Row>, n: nat, time: string -> Option<int>, now: int)
    requires n <= |rows|
    ensures Extends(rows, Expire(rows, n, time, now))
    ensures forall i :: n <= i < |rows| ==> Expire(rows, n, time, now)[i] == rows[i]
    ensures forall i :: 0 <= i < |rows| && Expire(rows, n, time, now)[i].kind == VALID ==> rows[i].kind == VALID
    ensures forall i :: 0 <= i < n && rows[i].kind == VALID && time(rows[i].expDate).Some? ==>
              (Expire(rows, n, time, now)[i].kind == EXPIRED <==> time(rows[i].expDate).value <= now)
    ensures forall i :: 0 <= i < |rows| && rows[i].kind != VALID ==> Expire(rows, n, time, now)[i] == rows[i]
  {
    forall i | 0 <= i < |rows| { ExpireAt(rows, n, time, now, i); }
  }

  lemma {:induction false} ExpireAt(rows: seq<Row>, n: nat, time: string -> Option<int>, now: int, i: nat)
    requires n <= |rows| && i < |rows|
    ensures Expire(rows, n, time, now)[i]
            == if i < n && rows[i].kind == VALID && time(rows[i].expDate).Some? && time(rows[i].expDate).value <= now
               then rows[i].(kind := EXPIRED) else rows[i]
  {
    if n > 0 { ExpireAt(rows, n - 1, time, now, i); }
  }

  /** No valid row up to this one has a malformed date. */
  ghost predicate DatesOk(rows: seq<Row>, time: string -> Option<int>, i: nat) {
    forall j :: 0 <= j <= i && j < |rows| && rows[j].kind == VALID ==> time(rows[j].expDate).Some?
  }

  /** Row by row: a valid row that is due, with no malformed date before it, is expired; every other
      row is as it was. */
  lemma {:induction false} ExpiredRow(rows: seq<Row>, time: string -> Option<int>, now: int, i: nat)
    requires i < |rows|
    ensures Expire(rows, ExpireReach(rows, time), time, now)[i]
            == if rows[i].kind == 'V' && DatesOk(rows, time, i) && time(rows[i].expDate).value <= now
               then rows[i].(kind := 'E') else rows[i]
  {
    var n := ExpireReach(rows, time);
    ExpireAt(rows, n, time, now, i);
    assert DatesOk(rows, time, i) <==> i < n;
  }

  /** Rows that only lose validity keep the indexes consistent. */
  lemma {:induction false} EvolvedWellFormed(db: Db, rows: seq<Row>)
    requires WellFormed(db) && Extends(db.rows, rows) && |rows| == |db.rows|
    requires forall i :: 0 <= i < |rows| && rows[i].kind == VALID ==> db.rows[i].kind == VALID
    ensures WellFormed(db.(rows := rows))
  {
    assert forall i :: 0 <= i < |rows| ==> Evolves(db.rows[i], rows[i]);
  }

  lemma {:induction false} RevokeFoundKeeps(db: Db, c: Cert, i: nat, revType: RevType, revStr: Option<string>)
    requires WellFormed(db) && i < |db.rows|
    ensures Kept(db, RevokeFound(db, c, i, revType, revStr).0)
  {
    var (db', ok) := RevokeFound(db, c, i, revType, revStr);
    EvolvedWellFormed(db, db'.rows);
  }

  lemma {:induction false} RevokeKeeps(db: Db, c: Cert, revType: RevType, revStr: Option<string>)
    requires WellFormed(db)
    ensures Kept(db, Revoke(db, c, revType, revStr).0)
  {
    KeptReflexive(db);
    match BySerial(db.rows, RowSerial(c.serial))
    case Some(i) => RevokeFoundKeeps(db, c, i, revType, revStr);
    case None =>
      if Insert(db, NewRow(c)).Some? {
        var added := Insert(db, NewRow(c)).value;
        InsertKeeps(db, NewRow(c));
        RevokeFoundKeeps(added, c, |db.rows|, revType, revStr);
        KeptTransitive(db, added, RevokeFound(added, c, |db.rows|, revType, revStr).0);
      }
  }

  lemma {:induction false} ExpireKeeps(db: Db, n: nat, time: string -> Option<int>, now: int)
    requires WellFormed(db) && n <= |db.rows|
    ensures Kept(db, db.(rows := Expire(db.rows, n, time, now)))
  {
    ExpireEvolves(db.rows, n, time, now);
    EvolvedWellFormed(db, Expire(db.rows, n, time, now));
  }

  /** The indexes can be built. */
  ghost predicate Indexable(rows: seq<Row>, unique: bool) {
    SerialsDistinct(rows) && (unique ==> ValidNamesDistinct(rows))
  }

  lemma {:induction false} IndexedWellFormed(rows: seq<Row>, unique: bool)
    requires Indexable(rows, unique)
    ensures WellFormed(Indexed(rows, unique))
  {
  }

  // ----- The class -----

  class Database {
    var rows: seq<Row>
    const unique: bool
    var named: set<nat>

    ghost function State(): Db
      reads this
    {
      Db(rows, unique, named)
    }

    constructor (loaded: seq<Row>, uniqueSubject: bool)
      ensures rows == loaded && unique == uniqueSubject && named == {}
    {
      rows, unique, named := loaded, uniqueSubject, {};
    }

    /** `index_index`: refused when a serial occurs twice, or with unique subjects the name
        of a valid row. */
    method IndexIndex() returns (ok: bool)
      modifies this`named
      ensures ok <==> Indexable(rows, unique)
      ensures ok ==> State() == Indexed(rows, unique) && WellFormed(State())
    {
      ok := IndexSerials();
      if !ok { return; }
      named := {};
      if unique {
        ok := IndexNames();
        if !ok { return; }
      }
      IndexedWellFormed(rows, unique);
      ok := true;
    }

    method IndexSerials() returns (ok: bool)
      ensures ok <==> SerialsDistinct(rows)
    {
      for i := 0 to |rows|
        invariant forall a, b :: 0 <= a < b < i ==> !SameSerial(rows[a].serial, rows[b].serial)
      {
        for k := 0 to i
          invariant forall j :: 0 <= j < k ==> !SameSerial(rows[j].serial, rows[i].serial)
        {
          if SameSerial(rows[k].serial, rows[i].serial) { return false; }
        }
      }
      ok := true;
    }

    method IndexNames() returns (ok: bool)
      modifies this`named
      ensures ok <==> ValidNamesDistinct(rows)
      ensures ok ==> named == set i: nat | i < |rows| && rows[i].kind == VALID
    {
      named := {};
      for i := 0 to |rows|
        invariant ValidNamesDistinct(rows[..i])
        invariant named == set k: nat | k < i && rows[k].kind == VALID
      {
        if rows[i].kind == VALID {
          for k := 0 to i
            invariant forall j :: 0 <= j < k && rows[j].kind == VALID ==> rows[j].name != rows[i].name
          {
            if rows[k].kind == VALID && rows[k].name == rows[i].name { return false; }
          }
          named := named + {i};
        }
        assert rows[..i + 1] == rows[..i] + [rows[i]];
      }
      assert rows[..|rows|] == rows;
      ok := true;
    }

    method GetBySerial(key: string) returns (r: Option<nat>)
      requires WellFormed(State())
      ensures r == BySerial(rows, key)
    {
      for i := 0 to |rows|
        invariant forall k :: 0 <= k < i ==> !SameSerial(rows[k].serial, key)
      {
        if SameSerial(rows[i].serial, key) {
          SerialFound(rows, i, key);
          return Some(i);
        }
      }
      return None;
    }

    method GetByName(name: string) returns (r: Option<nat>)
      requires WellFormed(State())
      ensures r == ByName(rows, named, name)
    {
      for i := 0 to |rows|
        invariant forall k :: 0 <= k < i && k in named ==> rows[k].name != name
      {
        if i in named && rows[i].name == name {
          NameFound(State(), i);
          return Some(i);
        }
      }
      return None;
    }

    method InsertRow(row: Row) returns (ok: bool)
      requires WellFormed(State())
      modifies this
      ensures ok <==> Insert(old(State()), row).Some?
      ensures State() == if ok then Insert(old(State()), row).value else old(State())
      ensures WellFormed(State())
    {
      var clash := GetBySerial(row.serial);
      if clash.Some? { return false; }
      if unique && row.kind == VALID {
        clash := GetByName(row.name);
        if clash.Some? { return false; }
        named := named + {|rows|};
      }
      rows := rows + [row];
      InsertKeeps(old(State()), row);
      return true;
    }

    /** The two lookups of `do_body`: the name if subjects are unique, then the serial. */
    method Clashes(c: Cert) returns (clash: bool)
      requires WellFormed(State())
      ensures clash <==> Certify(State(), c).None?
    {
      if unique {
        var byName := GetByName(RowName(c));
        if byName.Some? { return true; }
      }
      var bySerial := GetBySerial(RowSerial(c.serial));
      return bySerial.Some?;
    }

    /** The end of `do_body`: once the lookups found nothing, the insertion succeeds. */
    method CertifyCert(c: Cert) returns (ok: bool)
      requires WellFormed(State()) && Certify(State(), c).Some?
      modifies this
      ensures ok && State() == Certify(old(State()), c).value
      ensures WellFormed(State())
    {
      ok := InsertRow(NewRow(c));
    }

    /** The last branches of `do_revoke`, for a certificate found at row i. */
    method RevokeRow(c: Cert, name: string, i: nat, revType: RevType, revStr: Option<string>) returns (ok: bool)
      requires i < |rows| && name == RowName(c)
      modifies this`rows
      ensures (State(), ok) == RevokeFound(old(State()), c, i, revType, revStr)
    {
      if rows[i].name != name { return false; }
      if revType == RevValid { return false; }
      if rows[i].kind == REVOKED { return false; }
      if revStr.None? { return false; }
      rows := rows[i := rows[i].(kind := REVOKED, revDate := revStr.value)];
      return true;
    }

    /** `do_revoke`. A certificate that is not there is added and the call made once more;
        the second call finds it, so calls nest at most once. */
    method DoRevoke(c: Cert, revType: RevType, revStr: Option<string>) returns (ok: bool, ghost nested: nat)
      requires WellFormed(State())
      modifies this
      ensures (State(), ok) == Revoke(old(State()), c, revType, revStr)
      ensures nested == if BySerial(old(rows), RowSerial(c.serial)).None? && revType != RevValid
                           && Insert(old(State()), NewRow(c)).Some? then 1 else 0
      decreases if BySerial(rows, RowSerial(c.serial)).None? then 1 else 0
    {
      var serial, name := RowSerial(c.serial), RowName(c);
      var rrow := GetBySerial(serial);
      if rrow.Some? {
        ok := RevokeRow(c, name, rrow.value, revType, revStr);
        return ok, 0;
      }
      var inserted := InsertRow(NewRow(c));
      if !inserted { return false, 0; }
      if revType == RevValid { return true, 0; }
      RevokeAgain(old(State()), State(), c, revType, revStr);
      ok, nested := DoRevoke(c, revType, revStr);
      nested := nested + 1;
    }

    /** `do_updatedb`: the number of rows expired, or -1 at a malformed date. */
    method UpdateDb(time: string -> Option<int>, now: int) returns (cnt: int)
      modifies this`rows
      ensures rows == Expire(old(rows), ExpireReach(old(rows), time), time, now)
      ensures cnt == if ExpireReach(old(rows), time) < |old(rows)| then -1 else |Changed(old(rows), rows)|
    {
      ghost var before, reach := rows, ExpireReach(rows, time);
      cnt := 0;
      assert Changed(before, before) == {};
      for i := 0 to |rows|
        invariant i <= reach && rows == Expire(before, i, time, now)
        invariant cnt == |Changed(before, rows)|
      {
        ExpireStep(before, i, time, now);
        if rows[i].kind == VALID {
          if time(rows[i].expDate).None? { return -1; }
          if time(rows[i].expDate).value <= now {
            OneMoreChanged(before, rows, i, rows[i].(kind := EXPIRED));
            rows := rows[i := rows[i].(kind := EXPIRED)];
            cnt := cnt + 1;
          }
        }
      }
    }
  }

  lemma {:induction false} OneMoreChanged(before: seq<Row>, rows: seq<Row>, i: nat, row: Row)
    requires i < |rows| == |before| && rows[i] == before[i] && row.kind != before[i].kind
    ensures |Changed(before, rows[i := row])| == |Changed(before, rows)| + 1
  {
    assert Changed(before, rows[i := row]) == Changed(before, rows) + {i};
  }

  lemma {:induction false} ExpireStep(rows: seq<Row>, i: nat, time: string -> Option<int>, now: int)
    requires i < |rows|
    ensures Expire(rows, i, time, now)[i] == rows[i]
    ensures Expire(rows, i + 1, time, now)
            == if rows[i].kind == VALID && time(rows[i].expDate).Some? && time(rows[i].expDate).value <= now
               then Expire(rows, i, time, now)[i := rows[i].(kind := EXPIRED)] else Expire(rows, i, time, now)
  {
    ExpireAt(rows, i, time, now, i);
  }
}
