/** Reading the database back: the checks made when it is loaded, the CRL, and the answers
    of the OCSP responder. */
module CaReports {
  import opened CText
  import opened CaSerial
  import opened CaRevInfo
  import opened CaDatabase
  import opened Lists

  // ----- The load checks -----

  /** A row as the load checks of `ca_main` want it. */
  predicate RowOk(syn: Syntax, isTime: string -> bool, r: Row) {
    (r.kind != REVOKED ==> r.revDate == "")
    && (r.kind == REVOKED ==> Unpack(syn, r.revDate).Some?)
    && isTime(r.expDate) && ValidSerial(r.serial)
  }

  predicate RowsOk(syn: Syntax, isTime: string -> bool, rows: seq<Row>) {
    forall i :: 0 <= i < |rows| ==> RowOk(syn, isTime, rows[i])
  }

  /** A row is refused exactly for a revocation field that is there without a revocation or cannot be
      unpacked, for its end date, or for a serial with an odd number of digits, none, or a character
      that is no digit. */
  lemma {:induction false} RowRefused(syn: Syntax, isTime: string -> bool, r: Row)
    ensures var digits := if r.serial != "" && r.serial[0] == '-' then r.serial[1..] else r.serial;
            !RowOk(syn, isTime, r)
            <==> (if r.kind == 'R' then Unpack(syn, r.revDate) == None else r.revDate != "") || !isTime(r.expDate)
                 || digits == "" || |digits| % 2 == 1
                 || exists i :: 0 <= i < |digits| && var d := digits[i] as int;
                                                     !(48 <= d <= 57 || 65 <= d <= 70 || 97 <= d <= 102)
  {
    var digits := if r.serial != "" && r.serial[0] == '-' then r.serial[1..] else r.serial;
    assert digits == DigitsOf(r.serial);
  }

  method CheckRows(syn: Syntax, isTime: string -> bool, rows: seq<Row>) returns (ok: bool)
    ensures ok <==> RowsOk(syn, isTime, rows)
  {
    for i := 0 to |rows|
      invariant forall k :: 0 <= k < i ==> RowOk(syn, isTime, rows[k])
    {
      var r := rows[i];
      if r.kind != REVOKED && r.revDate != "" { return false; }
      if r.kind == REVOKED {
        var info, _ := UnpackRevinfo(syn, r.revDate);
        if info.None? { return false; }
      }
      if !isTime(r.expDate) { return false; }
      var serialOk := CheckSerial(r.serial);
      if !serialOk { return false; }
    }
    return true;
  }

  /** A row the program adds passes the checks. */
  lemma {:induction false} AddedRowOk(syn: Syntax, isTime: string -> bool, c: Cert)
    requires isTime(c.notAfter)
    ensures RowOk(syn, isTime, NewRow(c)) && WellPrinted(NewRow(c).serial)
  {
    RowSerialReads(c.serial);
  }

  /** A row the program revokes passes them exactly when it was revoked before 2050: later
      dates are written as GeneralizedTime, which the reader of the field refuses. */
  lemma {:induction false} RevokedRowOk(syn: Syntax, isTime: string -> bool, r: Row, revType: RevType, arg: string,
                                        now: Time)
    requires RowOk(syn, isTime, r) && now.Valid() && now.year >= 1950
    requires RevocationStr(syn, revType, arg, PrintTime(now)).Some?
    ensures RowOk(syn, isTime, r.(kind := REVOKED, revDate := RevocationStr(syn, revType, arg, PrintTime(now)).value))
            <==> now.year < 2050
  {
    RevocationRoundTrip(syn, revType, arg, now);
  }

  // ----- The CRL -----

  datatype CrlEntry = CrlEntry(serial: int, info: RevInfo)

  predicate HasExtension(info: RevInfo) {
    info.reason != NO_STATUS || info.hold.Some? || info.invalidity.Some?
  }

  /** The CRL entry of a row, if it is revoked. */
  function EntryOf(syn: Syntax, r: Row): Option<CrlEntry> {
    if r.kind != REVOKED || !ValidSerial(r.serial) then None
    else match Unpack(syn, r.revDate) case Some(info) => Some(CrlEntry(SerialValue(r.serial), info)) case None => None
  }

  function EntryFn(syn: Syntax): Row -> Option<CrlEntry> {
    r => EntryOf(syn, r)
  }

  /** `make_revoked`: 0 for a bad field, 2 when the entry gets extensions, else 1. */
  method MakeRevoked(syn: Syntax, s: string) returns (ret: int, info: Option<RevInfo>)
    ensures info == Unpack(syn, s)
    ensures ret == 0 <==> info.None?
    ensures ret == 2 <==> info.Some? && HasExtension(info.value)
    ensures ret in {0, 1, 2}
  {
    var revtm;
    info, revtm := UnpackRevinfo(syn, s);
    if info.None? { return 0, info; }
    ret := if info.value.reason != NO_STATUS then 2 else 1;
  }

  /** An entry has extensions exactly when the revocation came with a reason of any kind. */
  lemma {:induction false} AskedExtensions(revType: RevType, arg: string, time: string)
    ensures HasExtension(Asked(revType, arg, time)) <==> revType != RevValid && revType != RevNone
  {
  }

  /** The entries of the revoked rows, in row order. */
  function CrlEntries(syn: Syntax, rows: seq<Row>): seq<CrlEntry> {
    Collect(rows, EntryFn(syn))
  }

  predicate AnyExtension(entries: seq<CrlEntry>) {
    exists k :: 0 <= k < |entries| && HasExtension(entries[k].info)
  }

  /** The CRL loop of `ca_main`, before the entries are sorted by serial. Version 2 is set
      exactly for a CRL extension section, a CRL number or some entry extension. */
  method MakeCrl(syn: Syntax, isTime: string -> bool, rows: seq<Row>, crlExt: bool, crlNumber: bool)
    returns (entries: seq<CrlEntry>, v2: bool)
    requires RowsOk(syn, isTime, rows)
    ensures entries == CrlEntries(syn, rows)
    ensures v2 <==> crlExt || crlNumber || AnyExtension(entries)
  {
    entries := [];
    var crlV2 := false;
    ghost var entryOf := EntryFn(syn);
    for i := 0 to |rows|
      invariant entries == Collect(rows[..i], entryOf)
      invariant crlV2 <==> AnyExtension(entries)
    {
      CollectNext(rows, entryOf, i);
      if rows[i].kind == REVOKED {
        var hasExt, e := RevokedEntry(syn, isTime, rows[i]);
        ExtensionStep(entries, e);
        if hasExt { crlV2 := true; }
        entries := entries + [e];
      }
    }
    CollectAll(rows, entryOf);
    v2 := crlExt || crlNumber || crlV2;
  }

  /** One pass of the CRL loop. */
  method RevokedEntry(syn: Syntax, isTime: string -> bool, r: Row) returns (hasExt: bool, e: CrlEntry)
    requires RowOk(syn, isTime, r) && r.kind == REVOKED
    ensures EntryOf(syn, r) == Some(e) && (hasExt <==> HasExtension(e.info))
  {
    var j, info := MakeRevoked(syn, r.revDate);
    e := CrlEntry(SerialValue(r.serial), info.value);
    hasExt := j == 2;
  }

  lemma {:induction false} ExtensionStep(entries: seq<CrlEntry>, e: CrlEntry)
    ensures AnyExtension(entries + [e]) <==> AnyExtension(entries) || HasExtension(e.info)
  {
    var more := entries + [e];
    assert more[|entries|] == e && forall k :: 0 <= k < |entries| ==> more[k] == entries[k];
    if AnyExtension(entries) {
      var k :| 0 <= k < |entries| && HasExtension(entries[k].info);
      assert HasExtension(more[k].info);
    }
    if HasExtension(e.info) { assert HasExtension(more[|entries|].info); }
  }

  /** The row is revoked, with this number and this data. */
  predicate RevokedAs(syn: Syntax, r: Row, e: CrlEntry) {
    r.kind == 'R' && ValidSerial(r.serial) && SerialValue(r.serial) == e.serial
    && Unpack(syn, r.revDate) == Some(e.info)
  }

  ghost predicate RowRevoked(syn: Syntax, rows: seq<Row>, e: CrlEntry) {
    exists i :: 0 <= i < |rows| && RevokedAs(syn, rows[i], e)
  }

  lemma {:induction false} EntryOfRow(syn: Syntax, r: Row, e: CrlEntry)
    ensures EntryOf(syn, r) == Some(e) <==> RevokedAs(syn, r, e)
  {
  }

  /** The CRL lists exactly the revoked rows. */
  lemma {:induction false} CrlListsRevoked(syn: Syntax, rows: seq<Row>, e: CrlEntry)
    ensures e in CrlEntries(syn, rows) <==> RowRevoked(syn, rows, e)
  {
    var f := EntryFn(syn);
    CollectMembers(rows, f, e);
    forall i | 0 <= i < |rows| ensures f(rows[i]) == Some(e) <==> RevokedAs(syn, rows[i], e) {
      EntryOfRow(syn, rows[i], e);
    }
  }

  // ----- OCSP -----

  datatype Answer = Unknown | Good | Revoked(info: RevInfo) | NoAnswer | Failed

  /** The status for a certificate id; rows of another type are passed over in silence. */
  function OcspAnswer(syn: Syntax, rows: seq<Row>, issuerKnown: bool, serial: int): Answer {
    var inf := BySerial(rows, RowSerial(serial));
    if !issuerKnown || inf.None? then Unknown
    else if rows[inf.value].kind == VALID then Good
    else if rows[inf.value].kind == REVOKED then RevokedAnswer(syn, rows[inf.value].revDate)
    else NoAnswer
  }

  /** What is said of a revoked row. That the field does not unpack is not noticed: if its time is
      good the answer is "revoked", without a reason, and otherwise the status cannot be added. */
  function RevokedAnswer(syn: Syntax, field: string): Answer {
    match Unpack(syn, field)
    case Some(info) => Revoked(info)
    case None => if IsUtcTime(TimePart(field)) then Revoked(RevInfo(TimePart(field), NO_STATUS, None, None)) else Failed
  }

  /** A certificate id: the issuer it names, and the serial. */
  datatype CertId = CertId(issuer: nat, serial: int)

  function AnswerTo(syn: Syntax, rows: seq<Row>, cas: seq<nat>, id: CertId): Answer {
    OcspAnswer(syn, rows, id.issuer in cas, id.serial)
  }

  function StatusFn(syn: Syntax, rows: seq<Row>, cas: seq<nat>): CertId -> Option<(CertId, Answer)> {
    (id: CertId) => var a := AnswerTo(syn, rows, cas, id); if a == NoAnswer then None else Some((id, a))
  }

  /** The statuses of a response: one per id in order, none for ids passed over. */
  function Statuses(syn: Syntax, rows: seq<Row>, cas: seq<nat>, ids: seq<CertId>): seq<(CertId, Answer)> {
    Collect(ids, StatusFn(syn, rows, cas))
  }

  /** A requested id finds a revoked row whose time cannot be read. */
  predicate BadTime(rows: seq<Row>, cas: seq<nat>, id: CertId) {
    var inf := BySerial(rows, RowSerial(id.serial));
    id.issuer in cas && inf.Some? && rows[inf.value].kind == REVOKED && !IsUtcTime(TimePart(rows[inf.value].revDate))
  }

  function BadFn(rows: seq<Row>, cas: seq<nat>): CertId -> bool {
    id => BadTime(rows, cas, id)
  }

  /** A status fails exactly for a revoked row whose time is not a UTCTime. Whatever else is wrong
      with the field, the answer is "revoked" without a reason. */
  lemma {:induction false} OcspFailsExactly(syn: Syntax, rows: seq<Row>, cas: seq<nat>, id: CertId)
    ensures AnswerTo(syn, rows, cas, id) == Failed <==> BadTime(rows, cas, id)
  {
    var inf := BySerial(rows, RowSerial(id.serial));
    if inf.Some? { UnpackedTime(syn, rows[inf.value].revDate); }
  }

  lemma {:induction false} UnpackedTime(syn: Syntax, field: string)
    ensures Unpack(syn, field).Some? ==> IsUtcTime(TimePart(field)) && Unpack(syn, field).value.time == TimePart(field)
  {
    if CharAt(field, ',', 0) == |field| { assert TimePart(field) == field; }
  }

  method FindIssuer(cas: seq<nat>, issuer: nat) returns (found: bool)
    ensures found <==> issuer in cas
  {
    found := false;
    var jj := 0;
    while jj < |cas| && !found
      invariant 0 <= jj <= |cas|
      invariant found <==> issuer in cas[..jj]
    {
      if cas[jj] == issuer { found := true; }
      jj := jj + 1;
      assert cas[..jj] == cas[..jj - 1] + [cas[jj - 1]];
    }
  }

  /** One id of a request. */
  method OneStatus(syn: Syntax, db: Database, cas: seq<nat>, id: CertId) returns (answer: Answer)
    requires WellFormed(db.State())
    ensures answer == AnswerTo(syn, db.rows, cas, id)
    ensures answer == Failed <==> BadTime(db.rows, cas, id)
  {
    OcspFailsExactly(syn, db.rows, cas, id);
    var found := FindIssuer(cas, id.issuer);
    var inf := db.GetBySerial(RowSerial(id.serial));
    if !found || inf.None? { return Unknown; }
    var row := db.rows[inf.value];
    if row.kind == VALID { return Good; }
    if row.kind != REVOKED { return NoAnswer; }
    var info, revtm := UnpackRevinfo(syn, row.revDate);
    if revtm.None? { return Failed; }
    return Revoked(if info.None? then RevInfo(revtm.value, NO_STATUS, None, None) else info.value);
  }

  /** The functions give the status and the failure of every id. */
  ghost predicate Links(syn: Syntax, rows: seq<Row>, cas: seq<nat>, f: CertId -> Option<(CertId, Answer)>,
                        bad: CertId -> bool)
  {
    forall id {:trigger AnswerTo(syn, rows, cas, id)} ::
      var a := AnswerTo(syn, rows, cas, id);
      f(id) == (if a == NoAnswer then None else Some((id, a))) && bad(id) == (a == Failed)
  }

  method LinkedStatus(syn: Syntax, db: Database, cas: seq<nat>, id: CertId, ghost f: CertId -> Option<(CertId, Answer)>,
                      ghost bad: CertId -> bool) returns (answer: Answer)
    requires WellFormed(db.State()) && Links(syn, db.rows, cas, f, bad)
    ensures f(id) == (if answer == NoAnswer then None else Some((id, answer))) && bad(id) == (answer == Failed)
  {
    answer := OneStatus(syn, db, cas, id);
  }

  method StatusLoop(syn: Syntax, db: Database, cas: seq<nat>, ids: seq<CertId>,
                    ghost f: CertId -> Option<(CertId, Answer)>, ghost bad: CertId -> bool)
    returns (ok: bool, statuses: seq<(CertId, Answer)>)
    requires WellFormed(db.State()) && Links(syn, db.rows, cas, f, bad)
    ensures ok <==> forall k :: 0 <= k < |ids| ==> !bad(ids[k])
    ensures ok ==> statuses == Collect(ids, f)
  {
    statuses := [];
    for i := 0 to |ids|
      invariant forall k :: 0 <= k < i ==> !bad(ids[k])
      invariant statuses == Collect(ids[..i], f)
    {
      CollectNext(ids, f, i);
      var answer := LinkedStatus(syn, db, cas, ids[i], f, bad);
      if answer == Failed { return false, []; }
      if answer != NoAnswer { statuses := statuses + [(ids[i], answer)]; }
    }
    CollectAll(ids, f);
    ok := true;
  }

  /** The statuses `make_ocsp_response` adds for the ids of a request. It fails exactly on an empty
      request and on a revocation time that cannot be read. */
  method OcspStatuses(syn: Syntax, db: Database, cas: seq<nat>, ids: seq<CertId>)
    returns (ok: bool, statuses: seq<(CertId, Answer)>)
    requires WellFormed(db.State())
    ensures ok <==> ids != [] && forall k :: 0 <= k < |ids| ==> !BadTime(db.rows, cas, ids[k])
    ensures ok ==> statuses == Statuses(syn, db.rows, cas, ids)
  {
    if |ids| == 0 { return false, []; }
    forall id { OcspFailsExactly(syn, db.rows, cas, id); }
    ok, statuses := StatusLoop(syn, db, cas, ids, StatusFn(syn, db.rows, cas), BadFn(db.rows, cas));
  }

  // ----- The status query -----

  /** The key of `get_certificate_status`, built in a buffer and put in upper case there. */
  method BuildStatusKey(query: string) returns (key: string)
    ensures key == StatusKey(query)
  {
    var pad := if |query| % 2 == 1 then 1 else 0;
    var buf := new char[|query| + pad](i => '0');
    forall i | 0 <= i < |query| { buf[pad + i] := query[i]; }
    ghost var padded := if |query| % 2 == 1 then "0" + query else query;
    assert buf[..] == padded;
    for i := 0 to buf.Length
      invariant forall k :: 0 <= k < i ==> buf[k] == ToUpper(padded[k])
      invariant forall k :: i <= k < buf.Length ==> buf[k] == padded[k]
    {
      buf[i] := ToUpper(buf[i]);
    }
    key := buf[..];
    assert key == Upper(padded);
  }

  /** `get_certificate_status`: the type letter, or nothing for an unknown serial or type. */
  method GetStatus(db: Database, query: string) returns (kind: Option<char>)
    requires WellFormed(db.State())
    ensures kind == match BySerial(db.rows, StatusKey(query))
                    case None => None
                    case Some(i) =>
                      if db.rows[i].kind in {'V', 'R', 'E', 'S'} then Some(db.rows[i].kind) else None
  {
    var key := BuildStatusKey(query);
    var rrow := db.GetBySerial(key);
    if rrow.None? { return None; }
    var k := db.rows[rrow.value].kind;
    return if k == VALID || k == REVOKED || k == EXPIRED || k == SUSPENDED then Some(k) else None;
  }

  // ----- The two agree -----

  /** A loaded row is the one looked up under its own number exactly when its serial is well
      printed. */
  lemma {:induction false} LookedUpUnderItsNumber(syn: Syntax, isTime: string -> bool, rows: seq<Row>, i: nat)
    requires RowsOk(syn, isTime, rows) && SerialsDistinct(rows) && i < |rows|
    ensures BySerial(rows, RowSerial(SerialValue(rows[i].serial))) == Some(i) <==> WellPrinted(rows[i].serial)
  {
    assert RowOk(syn, isTime, rows[i]);
    var key := RowSerial(SerialValue(rows[i].serial));
    FoundUnderItsNumber(rows[i].serial);
    if SameSerial(rows[i].serial, key) { SerialFound(rows, i, key); }
  }

  /** The row found for a number has that number. */
  lemma {:induction false} FoundHasNumber(syn: Syntax, isTime: string -> bool, rows: seq<Row>, v: int)
    requires RowsOk(syn, isTime, rows) && BySerial(rows, RowSerial(v)).Some?
    ensures SerialValue(rows[BySerial(rows, RowSerial(v)).value].serial) == v
  {
    var i := BySerial(rows, RowSerial(v)).value;
    assert RowOk(syn, isTime, rows[i]);
    RowSerialReads(v);
    SameSerialSameValue(rows[i].serial, RowSerial(v));
  }

  /** An answer "revoked" is given for a revoked row of that number, with what the row says. */
  lemma {:induction false} FoundIsPrinted(syn: Syntax, isTime: string -> bool, rows: seq<Row>, e: CrlEntry)
    requires RowsOk(syn, isTime, rows) && SerialsDistinct(rows)
    requires OcspAnswer(syn, rows, true, e.serial) == Revoked(e.info)
    ensures PrintedFor(syn, rows, e)
  {
    var j := BySerial(rows, RowSerial(e.serial)).value;
    FoundHasNumber(syn, isTime, rows, e.serial);
    LookedUpUnderItsNumber(syn, isTime, rows, j);
    assert EntryOf(syn, rows[j]) == Some(e) && WellPrinted(rows[j].serial);
  }

  lemma {:induction false} RevokedIsAnswered(syn: Syntax, isTime: string -> bool, rows: seq<Row>, e: CrlEntry, i: nat)
    requires RowsOk(syn, isTime, rows) && SerialsDistinct(rows)
    requires i < |rows| && EntryOf(syn, rows[i]) == Some(e) && WellPrinted(rows[i].serial)
    ensures OcspAnswer(syn, rows, true, e.serial) == Revoked(e.info)
  {
    LookedUpUnderItsNumber(syn, isTime, rows, i);
  }

  /** No status fails on a file that passed the load checks. */
  lemma {:induction false} OcspNeverFails(syn: Syntax, isTime: string -> bool, rows: seq<Row>, v: int)
    requires RowsOk(syn, isTime, rows)
    ensures OcspAnswer(syn, rows, true, v) != Failed
  {
    if BySerial(rows, RowSerial(v)).Some? {
      assert RowOk(syn, isTime, rows[BySerial(rows, RowSerial(v)).value]);
    }
  }

  /** A row that did not pass them, with an empty reason: no CRL can be made from it, and OCSP
      answers "revoked" all the same. */
  lemma {:induction false} BadReasonIsAnswered(syn: Syntax, row: Row, time: string, v: int)
    requires row.kind == REVOKED && row.serial == RowSerial(v) && row.revDate == time + ","
    requires IsUtcTime(time) && NoCommas(time)
    ensures EntryOf(syn, row) == None
    ensures OcspAnswer(syn, [row], true, v) == Revoked(RevInfo(time, NO_STATUS, None, None))
  {
    EmptyReason(syn, time);
    SerialFound([row], 0, RowSerial(v));
  }

  /** OCSP answers "revoked", with a reason, time, hold or invalidity data, exactly for the
      entries of the CRL. */
  ghost predicate Agree(syn: Syntax, rows: seq<Row>) {
    forall e :: AgreeOn(syn, rows, e)
  }

  ghost predicate AgreeOn(syn: Syntax, rows: seq<Row>, e: CrlEntry) {
    OcspAnswer(syn, rows, true, e.serial) == Revoked(e.info) <==> e in CrlEntries(syn, rows)
  }

  /** A well-printed row gives this entry. */
  ghost predicate PrintedFor(syn: Syntax, rows: seq<Row>, e: CrlEntry) {
    exists j :: 0 <= j < |rows| && EntryOf(syn, rows[j]) == Some(e) && WellPrinted(rows[j].serial)
  }

  lemma {:induction false} AgreeOnPrinted(syn: Syntax, isTime: string -> bool, rows: seq<Row>, e: CrlEntry)
    requires RowsOk(syn, isTime, rows) && SerialsDistinct(rows)
    ensures OcspAnswer(syn, rows, true, e.serial) == Revoked(e.info) <==> PrintedFor(syn, rows, e)
  {
    if OcspAnswer(syn, rows, true, e.serial) == Revoked(e.info) {
      FoundIsPrinted(syn, isTime, rows, e);
    } else if PrintedFor(syn, rows, e) {
      var j :| 0 <= j < |rows| && EntryOf(syn, rows[j]) == Some(e) && WellPrinted(rows[j].serial);
      RevokedIsAnswered(syn, isTime, rows, e, j);
    }
  }

  /** The two agree exactly when every entry of the CRL comes from some well-printed row; in
      particular when every revoked row is well printed. */
  lemma {:induction false} OcspAgreesWithCrl(syn: Syntax, isTime: string -> bool, rows: seq<Row>)
    requires RowsOk(syn, isTime, rows) && SerialsDistinct(rows)
    ensures Agree(syn, rows) <==> forall e | e in CrlEntries(syn, rows) :: PrintedFor(syn, rows, e)
  {
    forall e ensures AgreeOn(syn, rows, e) <==> (e in CrlEntries(syn, rows) ==> PrintedFor(syn, rows, e)) {
      AgreeOnPrinted(syn, isTime, rows, e);
      CrlListsRevoked(syn, rows, e);
    }
  }

  /** "Good" is only said of a serial that a valid row has. */
  lemma {:induction false} GoodIsValid(syn: Syntax, isTime: string -> bool, rows: seq<Row>, issuerKnown: bool, v: int)
    requires RowsOk(syn, isTime, rows) && OcspAnswer(syn, rows, issuerKnown, v) == Good
    ensures issuerKnown && exists i :: 0 <= i < |rows| && rows[i].kind == VALID && SerialValue(rows[i].serial) == v
  {
    FoundHasNumber(syn, isTime, rows, v);
  }

  /** The answer for the number of a well-printed row, by the type of the row. */
  lemma {:induction false} RowIsAnswered(syn: Syntax, isTime: string -> bool, rows: seq<Row>, i: nat)
    requires RowsOk(syn, isTime, rows) && SerialsDistinct(rows) && i < |rows| && WellPrinted(rows[i].serial)
    ensures var answer := OcspAnswer(syn, rows, true, SerialValue(rows[i].serial));
            && (answer == Good <==> rows[i].kind == 'V')
            && (answer == NoAnswer <==> rows[i].kind != 'V' && rows[i].kind != 'R')
            && (rows[i].kind == 'R' ==> Unpack(syn, rows[i].revDate).Some?
                                        && answer == Revoked(Unpack(syn, rows[i].revDate).value))
  {
    assert RowOk(syn, isTime, rows[i]);
    LookedUpUnderItsNumber(syn, isTime, rows, i);
  }

  /** OCSP says "unknown" exactly for an unknown issuer and for a number that no well-printed row has. */
  lemma {:induction false} UnknownExactly(syn: Syntax, isTime: string -> bool, rows: seq<Row>, issuerKnown: bool,
                                          v: int)
    requires RowsOk(syn, isTime, rows) && SerialsDistinct(rows)
    ensures OcspAnswer(syn, rows, issuerKnown, v) == Unknown
            <==> !issuerKnown || forall i :: 0 <= i < |rows| && WellPrinted(rows[i].serial) ==>
                                   SerialValue(rows[i].serial) != v
  {
    forall i | 0 <= i < |rows|
      ensures ValidSerial(rows[i].serial)
      ensures WellPrinted(rows[i].serial) && SerialValue(rows[i].serial) == v ==>
                BySerial(rows, RowSerial(v)) == Some(i)
    {
      assert RowOk(syn, isTime, rows[i]);
      LookedUpUnderItsNumber(syn, isTime, rows, i);
    }
    if BySerial(rows, RowSerial(v)).Some? {
      var j := BySerial(rows, RowSerial(v)).value;
      FoundHasNumber(syn, isTime, rows, v);
      LookedUpUnderItsNumber(syn, isTime, rows, j);
    }
  }

  /** And "good" exactly for a number that a valid, well-printed row has. */
  lemma {:induction false} GoodExactly(syn: Syntax, isTime: string -> bool, rows: seq<Row>, issuerKnown: bool, v: int)
    requires RowsOk(syn, isTime, rows) && SerialsDistinct(rows)
    ensures OcspAnswer(syn, rows, issuerKnown, v) == Good
            <==> issuerKnown && exists i :: 0 <= i < |rows| && rows[i].kind == 'V' && WellPrinted(rows[i].serial)
                                            && SerialValue(rows[i].serial) == v
  {
    if OcspAnswer(syn, rows, issuerKnown, v) == Good {
      var j := BySerial(rows, RowSerial(v)).value;
      FoundHasNumber(syn, isTime, rows, v);
      LookedUpUnderItsNumber(syn, isTime, rows, j);
    } else if i :| 0 <= i < |rows| && WellPrinted(rows[i].serial) && rows[i].kind == 'V'
                   && ValidSerial(rows[i].serial) && SerialValue(rows[i].serial) == v {
      RowIsAnswered(syn, isTime, rows, i);
    }
  }

  /** A response has the status of an id exactly when the id was asked for and its answer is one. */
  lemma {:induction false} StatusesExactly(syn: Syntax, rows: seq<Row>, cas: seq<nat>, ids: seq<CertId>, id: CertId,
                                           answer: Answer)
    ensures (id, answer) in Statuses(syn, rows, cas, ids)
            <==> id in ids && answer == AnswerTo(syn, rows, cas, id) && answer != NoAnswer
  {
    var f := StatusFn(syn, rows, cas);
    CollectMembers(ids, f, (id, answer));
    if id in ids && f(id) == Some((id, answer)) {
      var i :| 0 <= i < |ids| && ids[i] == id;
      assert f(ids[i]) == Some((id, answer));
    }
  }

  /** When every id has an answer, the statuses are in the order of the ids. */
  lemma {:induction false} StatusesInOrder(syn: Syntax, rows: seq<Row>, cas: seq<nat>, ids: seq<CertId>, k: nat)
    requires forall i :: 0 <= i < |ids| ==> AnswerTo(syn, rows, cas, ids[i]) != NoAnswer
    requires k < |ids|
    ensures var statuses := Statuses(syn, rows, cas, ids);
            |statuses| == |ids| && statuses[k] == (ids[k], AnswerTo(syn, rows, cas, ids[k]))
  {
    var f := StatusFn(syn, rows, cas);
    assert forall i :: 0 <= i < |ids| ==> f(ids[i]) == Some((ids[i], AnswerTo(syn, rows, cas, ids[i])));
    CollectEvery(ids, f);
  }

  /** A revoked row that is not well printed is on the CRL, and OCSP does not know it unless
      another row has the same number. */
  lemma {:induction false} BadlyPrintedIsMissed(syn: Syntax, isTime: string -> bool, rows: seq<Row>, i: nat)
    requires RowsOk(syn, isTime, rows) && SerialsDistinct(rows) && i < |rows|
    requires rows[i].kind == REVOKED && !WellPrinted(rows[i].serial)
    requires forall j :: 0 <= j < |rows| && j != i ==> SerialValue(rows[j].serial) != SerialValue(rows[i].serial)
    ensures var v := SerialValue(rows[i].serial);
            OcspAnswer(syn, rows, true, v) == Unknown
            && CrlEntry(v, Unpack(syn, rows[i].revDate).value) in CrlEntries(syn, rows)
  {
    assert RowOk(syn, isTime, rows[i]);
    var v := SerialValue(rows[i].serial);
    LookedUpUnderItsNumber(syn, isTime, rows, i);
    if BySerial(rows, RowSerial(v)).Some? { FoundHasNumber(syn, isTime, rows, v); }
    var e := CrlEntry(v, Unpack(syn, rows[i].revDate).value);
    assert RevokedAs(syn, rows[i], e);
    CrlListsRevoked(syn, rows, e);
  }

  /** The load checks let such a row in: serial 15 written in lower case. */
  lemma {:induction false} LowerCaseSerialIsMissed(syn: Syntax, isTime: string -> bool, time: string, exp: string)
    requires IsUtcTime(time) && NoCommas(time) && isTime(exp)
    ensures var rows := [Row(REVOKED, exp, time, "0f", "unknown", "/CN=x")];
            RowsOk(syn, isTime, rows) && SerialsDistinct(rows)
            && CrlEntry(15, RevInfo(time, NO_STATUS, None, None)) in CrlEntries(syn, rows)
            && OcspAnswer(syn, rows, true, 15) == Unknown
  {
    var rows := [Row(REVOKED, exp, time, "0f", "unknown", "/CN=x")];
    UnpackPlain(syn, time);
    assert HexValue("0f") == 15 by { assert "0f"[..1] == "0"; assert HexValue("0") == 0; }
    assert RowOk(syn, isTime, rows[0]);
    assert !IsUpperHex("0f"[1]);
    BadlyPrintedIsMissed(syn, isTime, rows, 0);
  }
}
