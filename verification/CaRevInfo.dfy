/** The revocation field of a database row: the string `make_revocation_str` writes and
    `unpack_revinfo` reads, "time[,reason[,argument]]". */
module CaRevInfo {
  import opened CText

  /** The name comparisons of the X.509 library that both directions share: which texts are
      object identifiers and which are generalized times. */
  datatype Syntax = Syntax(isOid: string -> bool, isGenTime: string -> bool)

  datatype RevType = RevValid | RevNone | RevCrlReason | RevHold | RevKeyCompromise | RevCaCompromise

  const NO_STATUS: int := -1

  const CRL_REASONS: seq<string> := [
    "unspecified", "keyCompromise", "CACompromise", "affiliationChanged", "superseded",
    "cessationOfOperation", "certificateHold", "removeFromCRL",
    "holdInstruction", "keyTime", "CAkeyTime"]

  const HOLD_INSTRUCTION := 8
  const KEY_TIME := 9
  const CA_KEY_TIME := 10

  // ----- Times -----

  datatype Time = Time(year: nat, month: nat, day: nat, hour: nat, minute: nat, second: nat) {
    predicate Valid() {
      year <= 9999 && 1 <= month <= 12 && 1 <= day <= MonthDays(year, month)
      && hour <= 23 && minute <= 59 && second <= 59
    }

    /** UTCTime covers the years 1950 to 2049. */
    predicate IsUtc() {
      1950 <= year <= 2049
    }
  }

  function MonthDays(year: nat, month: nat): nat {
    if month == 2 then (if year % 400 == 0 || (year % 100 != 0 && year % 4 == 0) then 29 else 28)
    else if month in {4, 6, 9, 11} then 30 else 31
  }

  function Tens(n: nat): (c: char)
    requires n < 100
    ensures IsDigit(c)
  {
    DigitChar(n / 10)
  }

  function Ones(n: nat): (c: char)
    requires n < 100
    ensures IsDigit(c) && 10 * (Tens(n) as int - '0' as int) + (c as int - '0' as int) == n
  {
    DigitChar(n % 10)
  }

  function TwoValue(s: string, i: nat): (n: nat)
    requires i + 2 <= |s| && IsDigit(s[i]) && IsDigit(s[i + 1])
  {
    10 * (s[i] as int - '0' as int) + (s[i + 1] as int - '0' as int)
  }

  /** The current time as `X509_gmtime_adj` prints it: UTCTime while it can. */
  function PrintTime(t: Time): string
    requires t.Valid()
  {
    var century, yy := t.year / 100, t.year % 100;
    (if t.IsUtc() then [Tens(yy), Ones(yy)] else [Tens(century), Ones(century), Tens(yy), Ones(yy)])
    + [Tens(t.month), Ones(t.month), Tens(t.day), Ones(t.day), Tens(t.hour), Ones(t.hour),
       Tens(t.minute), Ones(t.minute), Tens(t.second), Ones(t.second), 'Z']
  }

  predicate TwoDigits(s: string, i: nat, low: nat, high: nat) {
    i + 2 <= |s| && IsDigit(s[i]) && IsDigit(s[i + 1]) && low <= TwoValue(s, i) <= high
  }

  predicate IsZone(s: string, i: nat) {
    i < |s|
    && ((s[i] == 'Z' && |s| == i + 1)
        || ((s[i] == '+' || s[i] == '-') && |s| == i + 5 && TwoDigits(s, i + 1, 0, 12) && TwoDigits(s, i + 3, 0, 59)))
  }

  /** A date, an hour and a minute. */
  predicate DateOk(s: string) {
    TwoDigits(s, 0, 0, 99) && TwoDigits(s, 2, 1, 12) && TwoDigits(s, 4, 1, 31)
    && TwoValue(s, 4) <= MonthDays((if TwoValue(s, 0) < 50 then 2000 else 1900) + TwoValue(s, 0), TwoValue(s, 2))
    && TwoDigits(s, 6, 0, 23) && TwoDigits(s, 8, 0, 59)
  }

  /** What `ASN1_UTCTIME_set_string` accepts: seconds may be missing, the zone may not. */
  predicate IsUtcTime(s: string) {
    |s| >= 13 && DateOk(s) && ((TwoDigits(s, 10, 0, 59) && IsZone(s, 12)) || IsZone(s, 10))
  }

  /** The pair of digits at each place of a printed time, after the century that only a
      GeneralizedTime has. */
  lemma {:induction false} PrintedDate(t: Time)
    requires t.Valid()
    ensures var s, k := PrintTime(t), if t.IsUtc() then 0 else 2;
            && |s| == k + 13 && s[k + 12] == 'Z'
            && (k == 2 ==> TwoDigits(s, 0, 0, 99) && TwoValue(s, 0) == t.year / 100)
            && TwoDigits(s, k, 0, 99) && TwoValue(s, k) == t.year % 100
            && TwoDigits(s, k + 2, 1, 12) && TwoValue(s, k + 2) == t.month
            && TwoDigits(s, k + 4, 1, 31) && TwoValue(s, k + 4) == t.day
  {
    var s, k, yy, century := PrintTime(t), if t.IsUtc() then 0 else 2, t.year % 100, t.year / 100;
    assert k == 2 ==> s[0] == Tens(century) && s[1] == Ones(century);
    assert s[k] == Tens(yy) && s[k + 1] == Ones(yy) && s[k + 2] == Tens(t.month) && s[k + 3] == Ones(t.month);
    assert s[k + 4] == Tens(t.day) && s[k + 5] == Ones(t.day);
  }

  lemma {:induction false} PrintedClock(t: Time)
    requires t.Valid()
    ensures var s, k := PrintTime(t), if t.IsUtc() then 6 else 8;
            && |s| == k + 7 && TwoDigits(s, k, 0, 23) && TwoValue(s, k) == t.hour
            && TwoDigits(s, k + 2, 0, 59) && TwoValue(s, k + 2) == t.minute
            && TwoDigits(s, k + 4, 0, 59) && TwoValue(s, k + 4) == t.second
  {
    var s, k := PrintTime(t), if t.IsUtc() then 6 else 8;
    assert s[k] == Tens(t.hour) && s[k + 1] == Ones(t.hour) && s[k + 2] == Tens(t.minute);
    assert s[k + 3] == Ones(t.minute) && s[k + 4] == Tens(t.second) && s[k + 5] == Ones(t.second);
  }

  lemma {:induction false} PrintedTimeIsUtc(t: Time)
    requires t.Valid()
    ensures IsUtcTime(PrintTime(t)) <==> t.IsUtc()
  {
    PrintedDate(t);
    PrintedClock(t);
    if t.IsUtc() { WithSeconds(PrintTime(t), t); } else { TooLong(PrintTime(t)); }
  }

  lemma {:induction false} WithSeconds(s: string, t: Time)
    requires t.Valid() && t.IsUtc() && |s| == 13 && s[12] == 'Z'
    requires TwoDigits(s, 0, 0, 99) && TwoDigits(s, 2, 1, 12) && TwoDigits(s, 4, 1, 31)
    requires TwoValue(s, 0) == t.year % 100 && TwoValue(s, 2) == t.month && TwoValue(s, 4) == t.day
    requires TwoDigits(s, 6, 0, 23) && TwoDigits(s, 8, 0, 59) && TwoDigits(s, 10, 0, 59)
    ensures IsUtcTime(s)
  {
  }

  lemma {:induction false} TooLong(s: string)
    requires |s| == 15 && IsDigit(s[10]) && IsDigit(s[12])
    ensures !IsUtcTime(s)
  {
  }

  /** Given a good date, hour and minute: seconds may be missing only before an offset, and a zone may
      not; offsets go up to twelve hours. */
  lemma {:induction false} UtcTimeForms(date: string)
    requires |date| == 10 && IsUtcTime(date + "00Z")
    ensures IsUtcTime(date + "59Z") && IsUtcTime(date + "00+1259") && IsUtcTime(date + "-0000")
    ensures !IsUtcTime(date + "60Z") && !IsUtcTime(date + "00+1300") && !IsUtcTime(date + "00+1260")
    ensures !IsUtcTime(date + "Z") && !IsUtcTime(date + "00") && !IsUtcTime(date + "00Z0")
  {
    SameDate(date, "59Z");
    SameDate(date, "00+1259");
    SameDate(date, "-0000");
  }

  lemma {:induction false} SameDate(date: string, rest: string)
    requires |date| == 10 && IsUtcTime(date + "00Z")
    ensures DateOk(date + rest)
  {
    var s, t := date + "00Z", date + rest;
    assert forall i :: 0 <= i < 10 ==> s[i] == t[i];
  }

  lemma {:induction false} LeapYears()
    ensures MonthDays(2000, 2) == 29 && MonthDays(1900, 2) == 28 && MonthDays(2024, 2) == 29 && MonthDays(2023, 2) == 28
    ensures MonthDays(2023, 4) == 30 && MonthDays(2023, 12) == 31
  {
  }

  lemma {:induction false} PrintedTimeIsPlain(t: Time)
    requires t.Valid()
    ensures NoCommas(PrintTime(t)) && NoNul(PrintTime(t))
  {
    var s := PrintTime(t);
    assert forall i :: 0 <= i < |s| ==> IsDigit(s[i]) || s[i] == 'Z';
  }

  predicate NoCommas(s: string) {
    Lacks(s, ',')
  }

  // ----- The field -----

  /** The first reason among the first n that equals s without regard to case, or n. */
  function ReasonIndex(s: string, n: nat): (i: nat)
    requires n <= |CRL_REASONS|
    ensures i <= n
    ensures i < n ==> EqualNoCase(s, CRL_REASONS[i])
    ensures forall j :: 0 <= j < i ==> !EqualNoCase(s, CRL_REASONS[j])
  {
    if n == 0 then 0 else
      var i := ReasonIndex(s, n - 1);
      if i < n - 1 || EqualNoCase(s, CRL_REASONS[i]) then i else n
  }

  /** The string for a revocation, or nothing if the argument is not valid for its type. */
  function RevocationStr(syn: Syntax, revType: RevType, arg: string, time: string): Option<string> {
    match revType
    case RevValid | RevNone => Some(time)
    case RevCrlReason =>
      var i := ReasonIndex(arg, 8);
      if i < 8 then Some(time + "," + CRL_REASONS[i]) else None
    case RevHold => if syn.isOid(arg) then Some(time + "," + CRL_REASONS[HOLD_INSTRUCTION] + "," + arg) else None
    case RevKeyCompromise => if syn.isGenTime(arg) then Some(time + "," + CRL_REASONS[KEY_TIME] + "," + arg) else None
    case RevCaCompromise => if syn.isGenTime(arg) then Some(time + "," + CRL_REASONS[CA_KEY_TIME] + "," + arg) else None
  }

  /** An unpacked field: time, reason code (-1 for none), hold instruction, invalidity date. */
  datatype RevInfo = RevInfo(time: string, reason: int, hold: Option<string>, invalidity: Option<string>)

  function UnpackReason(syn: Syntax, time: string, reason: string, arg: Option<string>): Option<RevInfo> {
    var i := ReasonIndex(reason, |CRL_REASONS|);
    if i < 7 then Some(RevInfo(time, i, None, None))
    else if i == 7 then Some(RevInfo(time, 8, None, None))
    else if i == |CRL_REASONS| || arg.None? then None
    else if i == 8 then (if syn.isOid(arg.value) then Some(RevInfo(time, 6, arg, None)) else None)
    else if syn.isGenTime(arg.value) then Some(RevInfo(time, if i == 9 then 1 else 2, None, arg)) else None
  }

  function Unpack(syn: Syntax, s: string): Option<RevInfo> {
    var c := CharAt(s, ',', 0);
    if !IsUtcTime(s[..c]) then None
    else if c == |s| then Some(RevInfo(s, NO_STATUS, None, None))
    else
      var d := CharAt(s, ',', c + 1);
      UnpackReason(syn, s[..c], s[c + 1..d], if d < |s| then Some(s[d + 1..]) else None)
  }

  /** The time of a field, which is set before anything else in it is looked at. */
  function TimePart(s: string): string {
    s[..CharAt(s, ',', 0)]
  }

  // ----- Round trip -----

  /** The reason code of RFC 5280, section 5.3.1, that a revocation asks for. */
  function AskedReason(revType: RevType, arg: string): (code: int)
    ensures code == NO_STATUS <==> revType == RevValid || revType == RevNone
  {
    match revType
    case RevValid | RevNone => NO_STATUS
    case RevHold => 6
    case RevKeyCompromise => 1
    case RevCaCompromise => 2
    case RevCrlReason =>
      if EqualNoCase(arg, "unspecified") then 0
      else if EqualNoCase(arg, "keyCompromise") then 1
      else if EqualNoCase(arg, "CACompromise") then 2
      else if EqualNoCase(arg, "affiliationChanged") then 3
      else if EqualNoCase(arg, "superseded") then 4
      else if EqualNoCase(arg, "cessationOfOperation") then 5
      else if EqualNoCase(arg, "certificateHold") then 6
      else 8
  }

  function Asked(revType: RevType, arg: string, time: string): RevInfo {
    RevInfo(time, AskedReason(revType, arg),
            if revType == RevHold then Some(arg) else None,
            if revType == RevKeyCompromise || revType == RevCaCompromise then Some(arg) else None)
  }

  lemma {:induction false} ReasonsDiffer(i: nat, j: nat)
    requires i < j < |CRL_REASONS|
    ensures !EqualNoCase(CRL_REASONS[j], CRL_REASONS[i])
  {
    assert |CRL_REASONS[i]| != |CRL_REASONS[j]| || ToUpper(CRL_REASONS[i][0]) != ToUpper(CRL_REASONS[j][0]);
    assert Upper(CRL_REASONS[i])[0] == ToUpper(CRL_REASONS[i][0]);
    assert Upper(CRL_REASONS[j])[0] == ToUpper(CRL_REASONS[j][0]);
  }

  lemma {:induction false} ReasonFindsItself(i: nat)
    requires i < |CRL_REASONS|
    ensures ReasonIndex(CRL_REASONS[i], |CRL_REASONS|) == i
  {
    var k := ReasonIndex(CRL_REASONS[i], |CRL_REASONS|);
    if k < i { ReasonsDiffer(k, i); }
  }

  predicate Plain(s: string) {
    NoCommas(s) && NoNul(s)
  }

  lemma {:induction false} LowReasonIsPlain(i: nat)
    requires i < 6
    ensures Plain(CRL_REASONS[i])
  {
    if i < 3 {
    } else {
    }
  }

  lemma {:induction false} HighReasonIsPlain(i: nat)
    requires 6 <= i < |CRL_REASONS|
    ensures Plain(CRL_REASONS[i])
  {
    if i < 8 {
    } else {
    }
  }

  lemma {:induction false} ReasonIsPlain(i: nat)
    requires i < |CRL_REASONS|
    ensures NoCommas(CRL_REASONS[i]) && NoNul(CRL_REASONS[i])
  {
    if i < 6 { LowReasonIsPlain(i); } else { HighReasonIsPlain(i); }
  }

  /** The field s, written at the given time, unpacks to info if that time is a UTCTime, and
      to nothing otherwise. */
  predicate ReadsAs(syn: Syntax, s: string, time: string, info: RevInfo) {
    Unpack(syn, s) == if IsUtcTime(time) then Some(info) else None
  }

  lemma {:induction false} UnpackPlain(syn: Syntax, time: string)
    requires NoCommas(time)
    ensures ReadsAs(syn, time, time, RevInfo(time, NO_STATUS, None, None))
  {
    assert time[0..|time|] == time[..|time|] == time;
    CharAtIs(time, ',', 0, |time|);
  }

  lemma {:induction false} ReasonSplit(time: string, reason: string)
    requires NoCommas(time) && NoCommas(reason)
    ensures var s := time + "," + reason;
            var c := |time|;
            CharAt(s, ',', 0) == c < |s| == CharAt(s, ',', c + 1) && s[..c] == time && s[c + 1..|s|] == reason
  {
    var s := time + "," + reason;
    var c := |time|;
    assert s[0..c] == s[..c] == time && s[c + 1..|s|] == reason && s[c] == ',';
    CharAtIs(s, ',', 0, c);
    CharAtIs(s, ',', c + 1, |s|);
  }

  lemma {:induction false} UnpackWithReason(syn: Syntax, time: string, i: nat)
    requires NoCommas(time) && i < 8
    ensures ReadsAs(syn, time + "," + CRL_REASONS[i], time, RevInfo(time, if i == 7 then 8 else i, None, None))
  {
    ReasonIsPlain(i);
    ReasonFindsItself(i);
    ReasonSplit(time, CRL_REASONS[i]);
  }

  /** A comma with nothing after it is no reason. */
  lemma {:induction false} EmptyReason(syn: Syntax, time: string)
    requires NoCommas(time)
    ensures Unpack(syn, time + ",") == None && TimePart(time + ",") == time
  {
    assert time + "," + "" == time + ",";
    ReasonSplit(time, "");
    NoEmptyReason(|CRL_REASONS|);
  }

  lemma {:induction false} NoEmptyReason(n: nat)
    requires n <= |CRL_REASONS|
    ensures ReasonIndex("", n) == n
  {
    if n > 0 {
      NoEmptyReason(n - 1);
      assert CRL_REASONS[n - 1] != "";
      assert |Upper(CRL_REASONS[n - 1])| == |CRL_REASONS[n - 1]|;
    }
  }

  lemma {:induction false} ArgumentSplit(time: string, reason: string, arg: string)
    requires NoCommas(time) && NoCommas(reason)
    ensures var s := time + "," + reason + "," + arg;
            var c, d := |time|, |time| + 1 + |reason|;
            CharAt(s, ',', 0) == c < CharAt(s, ',', c + 1) == d < |s|
            && s[..c] == time && s[c + 1..d] == reason && s[d + 1..] == arg
  {
    var s := time + "," + reason + "," + arg;
    var c, d := |time|, |time| + 1 + |reason|;
    assert s[0..c] == s[..c] == time && s[c + 1..d] == reason && s[d + 1..] == arg;
    assert s[c] == ',' && s[d] == ',';
    CharAtIs(s, ',', 0, c);
    CharAtIs(s, ',', c + 1, d);
  }

  /** The reason with its argument, for any text that finds the reason. */
  lemma {:induction false} UnpackArgument(syn: Syntax, time: string, i: nat, reason: string, arg: string)
    requires NoCommas(time) && NoCommas(reason) && HOLD_INSTRUCTION <= i <= CA_KEY_TIME
    requires ReasonIndex(reason, |CRL_REASONS|) == i
    requires if i == HOLD_INSTRUCTION then syn.isOid(arg) else syn.isGenTime(arg)
    ensures ReadsAs(syn, time + "," + reason + "," + arg, time,
                    if i == HOLD_INSTRUCTION then RevInfo(time, 6, Some(arg), None)
                    else RevInfo(time, if i == KEY_TIME then 1 else 2, None, Some(arg)))
  {
    ArgumentSplit(time, reason, arg);
    UnpackParts(syn, time + "," + reason + "," + arg, time, reason, arg);
  }

  lemma {:induction false} UnpackParts(syn: Syntax, s: string, time: string, reason: string, arg: string)
    requires var c, d := |time|, |time| + 1 + |reason|;
             c < d < |s| && CharAt(s, ',', 0) == c && CharAt(s, ',', c + 1) == d
             && s[..c] == time && s[c + 1..d] == reason && s[d + 1..] == arg
    ensures Unpack(syn, s) == if IsUtcTime(time) then UnpackReason(syn, time, reason, Some(arg)) else None
  {
  }

  lemma {:induction false} UnpackWithArgument(syn: Syntax, time: string, i: nat, arg: string)
    requires NoCommas(time) && HOLD_INSTRUCTION <= i <= CA_KEY_TIME
    requires if i == HOLD_INSTRUCTION then syn.isOid(arg) else syn.isGenTime(arg)
    ensures ReadsAs(syn, time + "," + CRL_REASONS[i] + "," + arg, time,
                    if i == HOLD_INSTRUCTION then RevInfo(time, 6, Some(arg), None)
                    else RevInfo(time, if i == KEY_TIME then 1 else 2, None, Some(arg)))
  {
    ReasonIsPlain(i);
    ReasonFindsItself(i);
    UnpackArgument(syn, time, i, CRL_REASONS[i], arg);
  }

  lemma {:induction false} FieldRoundTrip(syn: Syntax, revType: RevType, arg: string, time: string)
    requires RevocationStr(syn, revType, arg, time).Some? && NoCommas(time)
    ensures ReadsAs(syn, RevocationStr(syn, revType, arg, time).value, time, Asked(revType, arg, time))
  {
    match revType
    case RevValid | RevNone => UnpackPlain(syn, time);
    case RevCrlReason =>
      UnpackWithReason(syn, time, ReasonIndex(arg, 8));
      AskedIndex(arg);
    case RevHold => UnpackWithArgument(syn, time, HOLD_INSTRUCTION, arg);
    case RevKeyCompromise => UnpackWithArgument(syn, time, KEY_TIME, arg);
    case RevCaCompromise => UnpackWithArgument(syn, time, CA_KEY_TIME, arg);
  }

  /** Unpacking a written field gives back the time, the reason asked for and the whole
      argument, exactly when the time of writing is a UTCTime. */
  lemma {:induction false} RevocationRoundTrip(syn: Syntax, revType: RevType, arg: string, now: Time)
    requires now.Valid() && RevocationStr(syn, revType, arg, PrintTime(now)).Some?
    ensures Unpack(syn, RevocationStr(syn, revType, arg, PrintTime(now)).value)
            == if now.IsUtc() then Some(Asked(revType, arg, PrintTime(now))) else None
  {
    PrintedTimeIsUtc(now);
    PrintedTimeIsPlain(now);
    FieldRoundTrip(syn, revType, arg, PrintTime(now));
  }

  lemma {:induction false} AskedLow(arg: string)
    requires ReasonIndex(arg, 8) < 4
    ensures AskedReason(RevCrlReason, arg) == ReasonIndex(arg, 8)
  {
    assert EqualNoCase(arg, CRL_REASONS[ReasonIndex(arg, 8)]);
  }

  lemma {:induction false} AskedHigh(arg: string)
    requires 4 <= ReasonIndex(arg, 8) < 8
    ensures AskedReason(RevCrlReason, arg) == if ReasonIndex(arg, 8) == 7 then 8 else ReasonIndex(arg, 8)
  {
    assert forall k :: 0 <= k < 4 ==> !EqualNoCase(arg, CRL_REASONS[k]);
    assert EqualNoCase(arg, CRL_REASONS[ReasonIndex(arg, 8)]);
  }

  lemma {:induction false} AskedIndex(arg: string)
    requires ReasonIndex(arg, 8) < 8
    ensures AskedReason(RevCrlReason, arg) == if ReasonIndex(arg, 8) == 7 then 8 else ReasonIndex(arg, 8)
  {
    if ReasonIndex(arg, 8) < 4 { AskedLow(arg); } else { AskedHigh(arg); }
  }

  // ----- The texts of the field -----

  /** The field for a revocation without a reason, and for the three that take an argument. */
  lemma {:induction false} FieldTexts(syn: Syntax, arg: string, time: string)
    ensures RevocationStr(syn, RevNone, arg, time) == Some(time)
    ensures RevocationStr(syn, RevHold, arg, time)
            == if syn.isOid(arg) then Some(time + "," + "holdInstruction" + "," + arg) else None
    ensures RevocationStr(syn, RevKeyCompromise, arg, time)
            == if syn.isGenTime(arg) then Some(time + "," + "keyTime" + "," + arg) else None
    ensures RevocationStr(syn, RevCaCompromise, arg, time)
            == if syn.isGenTime(arg) then Some(time + "," + "CAkeyTime" + "," + arg) else None
  {
  }

  lemma {:induction false} ReasonIs(s: string, n: nat, i: nat)
    requires n <= |CRL_REASONS| && i < |CRL_REASONS| && EqualNoCase(s, CRL_REASONS[i])
    ensures ReasonIndex(s, n) == if i < n then i else n
  {
    var k := ReasonIndex(s, n);
    if k < i && k < n { ReasonsDiffer(k, i); }
  }

  /** A reason is written as it stands in the list, whatever the case of the argument. Only the first
      eight can be asked for. */
  lemma {:induction false} ReasonField(syn: Syntax, arg: string, time: string, i: nat)
    requires i < |CRL_REASONS| && EqualNoCase(arg, CRL_REASONS[i])
    ensures RevocationStr(syn, RevCrlReason, arg, time) == if i < 8 then Some(time + "," + CRL_REASONS[i]) else None
  {
    ReasonIs(arg, 8, i);
  }

  /** Nothing else is a reason. */
  lemma {:induction false} NoReason(syn: Syntax, arg: string, time: string)
    requires forall i :: 0 <= i < 8 ==> !EqualNoCase(arg, CRL_REASONS[i])
    ensures RevocationStr(syn, RevCrlReason, arg, time) == None
  {
  }

  lemma {:induction false} ReasonTexts()
    ensures CRL_REASONS[..4] == ["unspecified", "keyCompromise", "CACompromise", "affiliationChanged"]
    ensures CRL_REASONS[4..8] == ["superseded", "cessationOfOperation", "certificateHold", "removeFromCRL"]
  {
  }

  lemma {:induction false} TextOfReason(syn: Syntax, time: string, reason: string, arg: string)
    requires IsUtcTime(time) && NoCommas(time) && NoCommas(reason)
    ensures Unpack(syn, time + "," + reason + "," + arg) == UnpackReason(syn, time, reason, Some(arg))
    ensures Unpack(syn, time + "," + reason) == UnpackReason(syn, time, reason, None)
  {
    ArgumentSplit(time, reason, arg);
    UnpackParts(syn, time + "," + reason + "," + arg, time, reason, arg);
    ReasonSplit(time, reason);
  }

  /** Reading a reason of any case: an argument after one of the first eight is ignored; the last three
      need theirs, and it must be an object identifier or a time. */
  lemma {:induction false} ReasonArguments(syn: Syntax, time: string, reason: string, arg: string, i: nat)
    requires IsUtcTime(time) && NoCommas(time) && NoCommas(reason)
    requires i < |CRL_REASONS| && EqualNoCase(reason, CRL_REASONS[i])
    ensures var bare, full := Unpack(syn, time + "," + reason), Unpack(syn, time + "," + reason + "," + arg);
            if i < 8 then bare == full == Some(RevInfo(time, if i == 7 then 8 else i, None, None))
            else bare == None
                 && (full.Some? <==> if i == 8 then syn.isOid(arg) else syn.isGenTime(arg))
                 && (full.Some? ==> full.value == if i == 8 then RevInfo(time, 6, Some(arg), None)
                                                  else RevInfo(time, if i == 9 then 1 else 2, None, Some(arg)))
  {
    TextOfReason(syn, time, reason, arg);
    ReasonIs(reason, |CRL_REASONS|, i);
  }

  /** A text that is no reason cannot be read, with or without an argument. */
  lemma {:induction false} UnknownReason(syn: Syntax, time: string, reason: string, arg: string)
    requires NoCommas(time) && NoCommas(reason)
    requires forall i :: 0 <= i < |CRL_REASONS| ==> !EqualNoCase(reason, CRL_REASONS[i])
    ensures Unpack(syn, time + "," + reason) == None && Unpack(syn, time + "," + reason + "," + arg) == None
  {
    if IsUtcTime(time) {
      TextOfReason(syn, time, reason, arg);
    } else {
      ReasonSplit(time, reason);
      ArgumentSplit(time, reason, arg);
      UnpackParts(syn, time + "," + reason + "," + arg, time, reason, arg);
    }
  }

  // ----- The code -----

  method FindReason(s: string, n: nat) returns (i: nat)
    requires n <= |CRL_REASONS|
    ensures i == ReasonIndex(s, n)
  {
    i := 0;
    while i < n
      invariant i <= n && forall j :: 0 <= j < i ==> !EqualNoCase(s, CRL_REASONS[j])
    {
      if EqualNoCase(s, CRL_REASONS[i]) { return; }
      i := i + 1;
    }
  }

  method FindComma(s: string, from: nat) returns (p: nat)
    requires from <= |s|
    ensures p == CharAt(s, ',', from)
  {
    p := from;
    while p < |s| && s[p] != ','
      invariant from <= p <= |s| && CharAt(s, ',', p) == CharAt(s, ',', from)
    {
      p := p + 1;
    }
  }

  /** The reason and argument texts that `make_revocation_str` chooses. */
  method ChooseReason(syn: Syntax, revType: RevType, arg: string)
    returns (ok: bool, reason: Option<nat>, other: Option<string>)
    ensures ok && reason.Some? ==> reason.value < |CRL_REASONS|
    ensures ok && other.Some? ==> reason.Some? && other.value == arg
    ensures forall time ::
              RevocationStr(syn, revType, arg, time)
              == if !ok then None
                 else if reason.None? then Some(time)
                 else if other.None? then Some(time + "," + CRL_REASONS[reason.value])
                 else Some(time + "," + CRL_REASONS[reason.value] + "," + other.value)
  {
    ok, reason, other := true, None, None;
    match revType
    case RevValid | RevNone =>
    case RevCrlReason =>
      var i := FindReason(arg, 8);
      if i == 8 { ok := false; } else { reason := Some(i); }
    case RevHold =>
      if !syn.isOid(arg) { ok := false; } else { reason, other := Some(HOLD_INSTRUCTION), Some(arg); }
    case RevKeyCompromise | RevCaCompromise =>
      if !syn.isGenTime(arg) { ok := false; }
      else { reason, other := Some(if revType == RevKeyCompromise then KEY_TIME else CA_KEY_TIME), Some(arg); }
  }

  /** `make_revocation_str`: the computed allocation is exact, so no copy truncates. */
  method MakeRevocationStr(syn: Syntax, revType: RevType, arg: string, time: string) returns (str: array?<char>)
    requires NoNul(arg) && NoNul(time)
    ensures str == null <==> RevocationStr(syn, revType, arg, time).None?
    ensures str != null ==> fresh(str) && Holds(str, RevocationStr(syn, revType, arg, time).value)
                            && str.Length == |RevocationStr(syn, revType, arg, time).value| + 1
  {
    var ok, reason, other := ChooseReason(syn, revType, arg);
    if !ok { return null; }
    var i := |time| + 1;
    if reason.Some? { i := i + |CRL_REASONS[reason.value]| + 1; }
    if other.Some? { i := i + |other.value| + 1; }
    var buf := new char[i](_ => '\0');
    Strlcat(buf, "", time);
    if reason.Some? {
      ReasonIsPlain(reason.value);
      Strlcat(buf, time, ",");
      Strlcat(buf, time + ",", CRL_REASONS[reason.value]);
    }
    if other.Some? {
      ghost var text := time + "," + CRL_REASONS[reason.value];
      Strlcat(buf, text, ",");
      Strlcat(buf, text + ",", other.value);
    }
    str := buf;
  }

  /** The field cut at its first two commas. */
  method SplitField(s: string) returns (time: string, reason: Option<string>, arg: Option<string>)
    ensures time == TimePart(s) && (reason.None? ==> time == s)
    ensures reason.Some? ==> SplitsAs(s, reason.value, arg)
    ensures reason.None? <==> CharAt(s, ',', 0) == |s|
  {
    var p := FindComma(s, 0);
    time, reason, arg := s[..p], None, None;
    if p < |s| {
      var q := FindComma(s, p + 1);
      reason := Some(s[p + 1..q]);
      if q < |s| { arg := Some(s[q + 1..]); }
    }
  }

  /** What is after the first comma of the field. */
  predicate SplitsAs(s: string, reason: string, arg: Option<string>) {
    var c := CharAt(s, ',', 0);
    c < |s| && var d := CharAt(s, ',', c + 1);
               reason == s[c + 1..d] && arg == if d < |s| then Some(s[d + 1..]) else None
  }

  lemma {:induction false} UnpackIs(syn: Syntax, s: string, reason: string, arg: Option<string>)
    requires IsUtcTime(TimePart(s)) && SplitsAs(s, reason, arg)
    ensures Unpack(syn, s) == UnpackReason(syn, TimePart(s), reason, arg)
  {
  }

  lemma {:induction false} UnpackTimeOnly(syn: Syntax, s: string)
    requires CharAt(s, ',', 0) == |s| || !IsUtcTime(TimePart(s))
    ensures Unpack(syn, s) == if IsUtcTime(TimePart(s)) then Some(RevInfo(s, NO_STATUS, None, None)) else None
  {
  }

  /** `unpack_revinfo`, with every result wanted: on failure the revocation time may have been set
      already, and nothing else. */
  method UnpackRevinfo(syn: Syntax, s: string) returns (info: Option<RevInfo>, revtm: Option<string>)
    ensures info == Unpack(syn, s)
    ensures revtm == if IsUtcTime(TimePart(s)) then Some(TimePart(s)) else None
  {
    var time, reasonStr, argStr := SplitField(s);
    if !IsUtcTime(time) {
      UnpackTimeOnly(syn, s);
      return None, None;
    }
    revtm := Some(time);
    if reasonStr.None? {
      UnpackTimeOnly(syn, s);
      return Some(RevInfo(time, NO_STATUS, None, None)), revtm;
    }
    UnpackIs(syn, s, reasonStr.value, argStr);
    info := DecodeReason(syn, time, reasonStr.value, argStr);
  }

  method DecodeReason(syn: Syntax, time: string, reason: string, arg: Option<string>) returns (info: Option<RevInfo>)
    ensures info == UnpackReason(syn, time, reason, arg)
  {
    var code: int := FindReason(reason, |CRL_REASONS|);
    var hold, compTime := None, None;
    if code == |CRL_REASONS| { return None; }
    if code == 7 {
      code := 8;
    } else if code == HOLD_INSTRUCTION {
      if arg.None? || !syn.isOid(arg.value) { return None; }
      code, hold := 6, arg;
    } else if code == KEY_TIME || code == CA_KEY_TIME {
      if arg.None? || !syn.isGenTime(arg.value) { return None; }
      code, compTime := if code == KEY_TIME then 1 else 2, arg;
    }
    return Some(RevInfo(time, code, hold, compTime));
  }
}
