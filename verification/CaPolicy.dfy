/** The subject of a new certificate: the policy loop of `do_body` with its jumps, and the
    loop that deletes e-mail entries afterwards. */
module CaPolicy {
  import opened CText

  /** A name entry: object identifier, and the string with its ASN.1 type. */
  datatype Entry = Entry(obj: nat, data: string, tag: nat)
  type Name = seq<Entry>

  /** A line of the policy section: field name = rule. */
  datatype PolicyLine = PolicyLine(field: string, rule: string)

  // ----- What a policy asks for -----

  function Filter(name: Name, keep: Entry -> bool): (r: Name)
    ensures |r| <= |name|
  {
    if name == [] then [] else
      var last := |name| - 1;
      Filter(name[..last], keep) + (if keep(name[last]) then [name[last]] else [])
  }

  function Is(obj: nat): Entry -> bool {
    (e: Entry) => e.obj == obj
  }

  function IsNot(obj: nat): Entry -> bool {
    (e: Entry) => e.obj != obj
  }

  function OfType(name: Name, obj: nat): Name {
    Filter(name, Is(obj))
  }

  function Without(name: Name, obj: nat): Name {
    Filter(name, IsNot(obj))
  }

  predicate Occurs(name: Name, obj: nat) {
    exists i :: 0 <= i < |name| && name[i].obj == obj
  }

  datatype Rule = Optional | Supplied | Match | NoRule

  function RuleOf(text: string): Rule {
    if text == "optional" then Optional
    else if text == "supplied" then Supplied
    else if text == "match" then Match
    else NoRule
  }

  /** The type is there if it must be, and every entry of the type that must match is an entry of
      the CA. */
  predicate RuleHolds(rule: Rule, obj: nat, name: Name, ca: Name) {
    rule != NoRule
    && (rule != Optional ==> Occurs(name, obj))
    && (rule == Match ==> forall i :: 0 <= i < |name| && name[i].obj == obj ==> name[i] in ca)
  }

  /** The line is well formed and its rule holds. */
  predicate LineHolds(nid: string -> Option<nat>, line: PolicyLine, name: Name, ca: Name) {
    nid(line.field).Some? && RuleHolds(RuleOf(line.rule), nid(line.field).value, name, ca)
  }

  predicate PolicyHolds(nid: string -> Option<nat>, policy: seq<PolicyLine>, name: Name, ca: Name) {
    forall k :: 0 <= k < |policy| ==> LineHolds(nid, policy[k], name, ca)
  }

  /** For each line in order, all entries of its type in the order of the request. */
  function PolicySubject(nid: string -> Option<nat>, policy: seq<PolicyLine>, name: Name): Name
    requires forall k :: 0 <= k < |policy| ==> nid(policy[k].field).Some?
  {
    if policy == [] then [] else
      var last := |policy| - 1;
      PolicySubject(nid, policy[..last], name) + OfType(name, nid(policy[last].field).value)
  }

  /** The subject the certificate gets. */
  function CertSubject(nid: string -> Option<nat>, policy: seq<PolicyLine>, name: Name, ca: Name,
                       preserve: bool, emailDn: bool, email: nat): Option<Name>
  {
    if !PolicyHolds(nid, policy, name, ca) then None else
      var subject := if preserve then name else
        assert forall k :: 0 <= k < |policy| ==> LineHolds(nid, policy[k], name, ca);
        PolicySubject(nid, policy, name);
      Some(if emailDn then subject else Without(subject, email))
  }

  // ----- Searching a name -----

  /** `X509_NAME_get_index_by_OBJ`. */
  method GetIndex(name: Name, obj: nat, lastpos: int) returns (j: int)
    requires -1 <= lastpos < |name|
    ensures -1 == j || lastpos < j < |name|
    ensures j >= 0 ==> name[j].obj == obj
    ensures forall i :: lastpos < i < (if j >= 0 then j else |name|) ==> name[i].obj != obj
  {
    j := lastpos + 1;
    while j < |name|
      invariant lastpos < j <= |name|
      invariant forall i :: lastpos < i < j ==> name[i].obj != obj
    {
      if name[j].obj == obj { return; }
      j := j + 1;
    }
    j := -1;
  }

  lemma {:induction false} FilterSkips(name: Name, keep: Entry -> bool, lo: nat, hi: nat)
    requires lo <= hi <= |name| && forall i :: lo <= i < hi ==> !keep(name[i])
    ensures Filter(name[..hi], keep) == Filter(name[..lo], keep)
    decreases hi
  {
    if hi > lo {
      assert name[..hi][..hi - 1] == name[..hi - 1];
      FilterSkips(name, keep, lo, hi - 1);
    }
  }

  lemma {:induction false} FilterTakes(name: Name, keep: Entry -> bool, lo: nat, at: nat)
    requires lo <= at < |name| && keep(name[at]) && forall i :: lo <= i < at ==> !keep(name[i])
    ensures Filter(name[..at + 1], keep) == Filter(name[..lo], keep) + [name[at]]
  {
    assert name[..at + 1][..at] == name[..at];
    FilterSkips(name, keep, lo, at);
  }

  lemma {:induction false} FilterKeepsAll(name: Name, keep: Entry -> bool)
    requires forall i :: 0 <= i < |name| ==> keep(name[i])
    ensures Filter(name, keep) == name
  {
    if name != [] {
      FilterKeepsAll(name[..|name| - 1], keep);
      assert name == name[..|name| - 1] + [name[|name| - 1]];
    }
  }

  lemma {:induction false} FilterNext(name: Name, e: Entry, keep: Entry -> bool)
    ensures Filter(name + [e], keep) == Filter(name, keep) + if keep(e) then [e] else []
  {
    assert (name + [e])[..|name|] == name;
  }

  lemma {:induction false} NameAssoc(a: Name, b: Name, c: Name)
    ensures a + b + c == a + (b + c)
  {
  }

  lemma {:induction false} FilterConcat(a: Name, b: Name, keep: Entry -> bool)
    ensures Filter(a + b, keep) == Filter(a, keep) + Filter(b, keep)
  {
    if b == [] {
      assert a + b == a;
    } else {
      var front, e := b[..|b| - 1], b[|b| - 1];
      FilterConcat(a, front, keep);
      FilterNext(a + front, e, keep);
      assert b == front + [e];
      FilterNext(front, e, keep);
      NameAssoc(a, front, [e]);
      NameAssoc(Filter(a, keep), Filter(front, keep), if keep(e) then [e] else []);
    }
  }

  // ----- The policy loop -----

  /** The `again2` loop: the CA entry that equals the request entry, or nothing. */
  method FindMatch(ca: Name, tne: Entry) returns (push: Option<Entry>)
    ensures push == if tne in ca then Some(tne) else None
  {
    var last2 := -1;
    while true
      invariant -1 <= last2 < |ca|
      invariant forall i :: 0 <= i <= last2 ==> ca[i] != tne
      decreases |ca| - last2
    {
      var j := GetIndex(ca, tne.obj, last2);
      if j < 0 {
        assert forall i :: 0 <= i < |ca| ==> ca[i] != tne;
        return None;
      }
      assert forall i :: 0 <= i < j ==> ca[i] != tne;
      last2 := j;
      if ca[j].data == tne.data && ca[j].tag == tne.tag { return Some(ca[j]); }
    }
  }

  /** The entry found for a rule, or the lack of one, is acceptable. */
  predicate Passes(rule: Rule, tne: Option<Entry>, ca: Name) {
    match rule
    case Optional => true
    case Supplied => tne.Some?
    case Match => tne.Some? && tne.value in ca
    case NoRule => false
  }

  /** What one rule makes of the entry found, or of none. */
  method DecideEntry(line: PolicyLine, tne: Option<Entry>, ca: Name) returns (ok: bool, push: Option<Entry>)
    ensures ok <==> Passes(RuleOf(line.rule), tne, ca)
    ensures ok ==> push == tne
  {
    ok, push := true, None;
    if line.rule == "optional" {
      push := tne;
    } else if line.rule == "supplied" {
      if tne.None? { return false, None; }
      push := tne;
    } else if line.rule == "match" {
      if tne.None? { return false, None; }
      push := FindMatch(ca, tne.value);
      if push.None? { return false, None; }
    } else {
      return false, None;
    }
  }

  /** The rule held of the entries up to a position, the last of the type so far. */
  ghost predicate HeldSoFar(rule: Rule, obj: nat, name: Name, ca: Name, last: int) {
    -1 <= last < |name|
    && (last >= 0 ==> name[last].obj == obj && rule != NoRule)
    && (rule == Match ==> forall i :: 0 <= i <= last && name[i].obj == obj ==> name[i] in ca)
  }

  lemma {:induction false} HeldNext(rule: Rule, obj: nat, name: Name, ca: Name, last: int, j: int)
    requires HeldSoFar(rule, obj, name, ca, last) && last < j < |name| && name[j].obj == obj
    requires (forall i :: last < i < j ==> name[i].obj != obj) && Passes(rule, Some(name[j]), ca)
    ensures HeldSoFar(rule, obj, name, ca, j)
  {
  }

  lemma {:induction false} HeldToTheEnd(rule: Rule, obj: nat, name: Name, ca: Name, last: int)
    requires HeldSoFar(rule, obj, name, ca, last) && forall i :: last < i < |name| ==> name[i].obj != obj
    requires last < 0 ==> Passes(rule, None, ca)
    ensures RuleHolds(rule, obj, name, ca)
  {
    if last >= 0 { assert Occurs(name, obj); }
  }

  /** A refused entry refutes the rule. */
  lemma {:induction false} RuleFails(rule: Rule, obj: nat, name: Name, ca: Name, tne: Option<Entry>)
    requires tne.None? ==> !Occurs(name, obj)
    requires tne.Some? ==> tne.value in name && tne.value.obj == obj
    requires !Passes(rule, tne, ca)
    ensures !RuleHolds(rule, obj, name, ca)
  {
    if tne.Some? {
      var i :| 0 <= i < |name| && name[i] == tne.value;
      assert name[i].obj == obj && (rule == Match ==> name[i] !in ca);
    }
  }

  /** The inner loop for one policy line. */
  method ApplyLine(line: PolicyLine, obj: nat, name: Name, ca: Name, start: Name, ghost rule: Rule)
    returns (subject: Option<Name>)
    requires rule == RuleOf(line.rule)
    ensures subject == if RuleHolds(rule, obj, name, ca) then Some(start + OfType(name, obj)) else None
  {
    var acc, last := start, -1;
    ghost var keep := Is(obj);
    while true
      invariant HeldSoFar(rule, obj, name, ca, last)
      invariant acc == start + Filter(name[..last + 1], keep)
      decreases |name| - last
    {
      var j := GetIndex(name, obj, last);
      if j < 0 && last != -1 { break; }
      var tne := if j < 0 then None else Some(name[j]);
      var ok, push := DecideEntry(line, tne, ca);
      if !ok {
        RuleFails(rule, obj, name, ca, tne);
        return None;
      }
      if j < 0 { break; }
      FilterTakes(name, keep, last + 1, j);
      HeldNext(rule, obj, name, ca, last, j);
      acc, last := acc + [push.value], j;
    }
    HeldToTheEnd(rule, obj, name, ca, last);
    FilterSkips(name, keep, last + 1, |name|);
    assert name[..|name|] == name;
    subject := Some(acc);
  }

  /** One line of the policy: its field, and the inner loop. */
  method ApplyField(nid: string -> Option<nat>, line: PolicyLine, name: Name, ca: Name, start: Name)
    returns (subject: Option<Name>)
    ensures subject.Some? <==> LineHolds(nid, line, name, ca)
    ensures subject.Some? ==> nid(line.field).Some? && subject.value == start + OfType(name, nid(line.field).value)
  {
    if nid(line.field).None? { return None; }
    subject := ApplyLine(line, nid(line.field).value, name, ca, start, RuleOf(line.rule));
  }

  /** The whole policy loop: it succeeds exactly when the policy holds, and then builds the
      subject the policy describes. */
  method ApplyPolicy(nid: string -> Option<nat>, policy: seq<PolicyLine>, name: Name, ca: Name)
    returns (subject: Option<Name>)
    ensures subject.Some? <==> PolicyHolds(nid, policy, name, ca)
    ensures subject.Some? ==> (forall k :: 0 <= k < |policy| ==> nid(policy[k].field).Some?)
                              && subject.value == PolicySubject(nid, policy, name)
  {
    var acc: Name := [];
    for i := 0 to |policy|
      invariant forall k :: 0 <= k < i ==> LineHolds(nid, policy[k], name, ca)
      invariant acc == PolicySubject(nid, policy[..i], name)
    {
      var next := ApplyField(nid, policy[i], name, ca, acc);
      if next.None? { return None; }
      acc := next.value;
      assert policy[..i + 1][..i] == policy[..i];
    }
    assert policy[..|policy|] == policy;
    subject := Some(acc);
  }

  /** The deletion loop: search on from the entry before the deleted one. */
  method DeleteEmails(name: Name, email: nat) returns (dn: Name)
    ensures dn == Without(name, email)
  {
    dn := name;
    ghost var keep := IsNot(email);
    var i := GetIndex(dn, email, -1);
    while i >= 0
      invariant -1 <= i < |dn|
      invariant i >= 0 ==> dn[i].obj == email
      invariant forall k :: 0 <= k < (if i >= 0 then i else |dn|) ==> dn[k].obj != email
      invariant Without(dn, email) == Without(name, email)
      decreases |dn|
    {
      var before := dn;
      dn := dn[..i] + dn[i + 1..];
      DeleteOne(before, i, email);
      i := i - 1;
      i := GetIndex(dn, email, i);
    }
    FilterKeepsAll(dn, keep);
  }

  lemma {:induction false} DeleteOne(dn: Name, i: nat, email: nat)
    requires i < |dn| && dn[i].obj == email
    ensures Without(dn[..i] + dn[i + 1..], email) == Without(dn, email)
  {
    var keep, front, rest := IsNot(email), dn[..i], dn[i + 1..];
    assert dn == front + [dn[i]] + rest;
    FilterNext(front, dn[i], keep);
    FilterConcat(front + [dn[i]], rest, keep);
    FilterConcat(front, rest, keep);
  }

  /** The subject part of `do_body`. */
  method BuildSubject(nid: string -> Option<nat>, policy: seq<PolicyLine>, name: Name, ca: Name,
                      preserve: bool, emailDn: bool, email: nat) returns (subject: Option<Name>)
    ensures subject == CertSubject(nid, policy, name, ca, preserve, emailDn, email)
  {
    subject := ApplyPolicy(nid, policy, name, ca);
    if subject.None? { return; }
    if preserve { subject := Some(name); }
    if !emailDn {
      var dn := DeleteEmails(subject.value, email);
      subject := Some(dn);
    }
  }

  // ----- What the subject is -----

  lemma {:induction false} FilterOnlyKept(name: Name, keep: Entry -> bool, e: Entry)
    ensures e in Filter(name, keep) <==> e in name && keep(e)
  {
    if name != [] {
      var last := |name| - 1;
      FilterOnlyKept(name[..last], keep, e);
      assert name == name[..last] + [name[last]];
    }
  }

  /** Some policy line names the type. */
  predicate Named(nid: string -> Option<nat>, policy: seq<PolicyLine>, obj: nat) {
    exists k :: 0 <= k < |policy| && nid(policy[k].field) == Some(obj)
  }

  lemma {:induction false} NamedStep(nid: string -> Option<nat>, policy: seq<PolicyLine>, obj: nat)
    requires policy != []
    ensures var last := |policy| - 1;
            Named(nid, policy, obj) <==> Named(nid, policy[..last], obj) || nid(policy[last].field) == Some(obj)
  {
    var last := |policy| - 1;
    var front := policy[..last];
    assert forall k :: 0 <= k < last ==> front[k] == policy[k];
    if Named(nid, front, obj) {
      var k :| 0 <= k < |front| && nid(front[k].field) == Some(obj);
      assert nid(policy[k].field) == Some(obj);
    }
  }

  /** Without `preserve`, the subject holds a request entry exactly when some policy line
      names its type. */
  lemma {:induction false} SubjectEntries(nid: string -> Option<nat>, policy: seq<PolicyLine>, name: Name, e: Entry)
    requires forall k :: 0 <= k < |policy| ==> nid(policy[k].field).Some?
    ensures e in PolicySubject(nid, policy, name) <==> e in name && Named(nid, policy, e.obj)
  {
    if policy != [] {
      var last := |policy| - 1;
      SubjectEntries(nid, policy[..last], name, e);
      FilterOnlyKept(name, Is(nid(policy[last].field).value), e);
      NamedStep(nid, policy, e.obj);
    }
  }

  /** The subject of the certificate holds an entry exactly when the request has it, it is preserved
      or some policy line names its type, and e-mail entries are wanted or it is none. */
  lemma {:induction false} CertSubjectEntries(nid: string -> Option<nat>, policy: seq<PolicyLine>, name: Name, ca: Name,
                                              preserve: bool, emailDn: bool, email: nat, e: Entry)
    requires CertSubject(nid, policy, name, ca, preserve, emailDn, email).Some?
    ensures e in CertSubject(nid, policy, name, ca, preserve, emailDn, email).value
            <==> e in name && (preserve || Named(nid, policy, e.obj)) && (emailDn || e.obj != email)
  {
    assert forall k :: 0 <= k < |policy| ==> LineHolds(nid, policy[k], name, ca);
    FilterOnlyKept(name, IsNot(email), e);
    FilterOnlyKept(PolicySubject(nid, policy, name), IsNot(email), e);
    SubjectEntries(nid, policy, name, e);
  }

  /** With `-noemailDN`, preserved or not, the subject has no e-mail entry. */
  lemma {:induction false} NoEmailSurvives(nid: string -> Option<nat>, policy: seq<PolicyLine>, name: Name, ca: Name,
                        preserve: bool, email: nat, e: Entry)
    requires CertSubject(nid, policy, name, ca, preserve, false, email).Some?
    requires e in CertSubject(nid, policy, name, ca, preserve, false, email).value
    ensures e.obj != email && e in name
  {
    CertSubjectEntries(nid, policy, name, ca, preserve, false, email, e);
  }

  /** The line names no known type or no known rule, asks for a type that the request lacks, or for
      a match that some entry of the type does not have. */
  predicate LineFails(nid: string -> Option<nat>, line: PolicyLine, name: Name, ca: Name) {
    match nid(line.field)
    case None => true
    case Some(obj) =>
      || line.rule !in {"optional", "supplied", "match"}
      || (line.rule != "optional" && forall e | e in name :: e.obj != obj)
      || (line.rule == "match" && exists e | e in name :: e.obj == obj && e !in ca)
  }

  lemma {:induction false} LineFailsExactly(nid: string -> Option<nat>, line: PolicyLine, name: Name, ca: Name)
    ensures LineFails(nid, line, name, ca) <==> !LineHolds(nid, line, name, ca)
  {
    if nid(line.field).Some? {
      var obj := nid(line.field).value;
      OccursIs(name, obj);
      AllMatch(name, ca, obj);
    }
  }

  lemma {:induction false} OccursIs(name: Name, obj: nat)
    ensures Occurs(name, obj) <==> exists e | e in name :: e.obj == obj
  {
    if e :| e in name && e.obj == obj {
      var i :| 0 <= i < |name| && name[i] == e;
    }
  }

  lemma {:induction false} AllMatch(name: Name, ca: Name, obj: nat)
    ensures (forall i :: 0 <= i < |name| && name[i].obj == obj ==> name[i] in ca)
            <==> forall e | e in name && e.obj == obj :: e in ca
  {
  }

  /** A request is refused exactly when some line fails. */
  lemma {:induction false} SubjectRefused(nid: string -> Option<nat>, policy: seq<PolicyLine>, name: Name, ca: Name,
                                          preserve: bool, emailDn: bool, email: nat)
    ensures CertSubject(nid, policy, name, ca, preserve, emailDn, email) == None
            <==> exists k :: 0 <= k < |policy| && LineFails(nid, policy[k], name, ca)
  {
    forall k | 0 <= k < |policy|
      ensures LineFails(nid, policy[k], name, ca) <==> !LineHolds(nid, policy[k], name, ca)
    {
      LineFailsExactly(nid, policy[k], name, ca);
    }
  }

  // ----- The order of the entries -----

  /** How many lines name the type. */
  function LinesFor(nid: string -> Option<nat>, policy: seq<PolicyLine>, obj: nat): nat {
    if policy == [] then 0 else
      var last := |policy| - 1;
      LinesFor(nid, policy[..last], obj) + if nid(policy[last].field) == Some(obj) then 1 else 0
  }

  function Repeat(name: Name, n: nat): Name {
    if n == 0 then [] else Repeat(name, n - 1) + name
  }

  lemma {:induction false} FilterTwice(name: Name, keep: Entry -> bool, also: Entry -> bool)
    requires (forall e :: keep(e) ==> also(e)) || (forall e :: keep(e) ==> !also(e))
    ensures Filter(Filter(name, keep), also) == if forall e :: keep(e) ==> also(e) then Filter(name, keep) else []
  {
    var kept := Filter(name, keep);
    forall i | 0 <= i < |kept| ensures keep(kept[i]) { FilterOnlyKept(name, keep, kept[i]); }
    if forall e :: keep(e) ==> also(e) {
      FilterKeepsAll(kept, also);
    } else {
      FilterSkips(kept, also, 0, |kept|);
      assert kept[..|kept|] == kept && kept[..0] == [];
    }
  }

  lemma {:induction false} OfTypeOfType(name: Name, a: nat, b: nat)
    ensures OfType(OfType(name, a), b) == if a == b then OfType(name, a) else []
  {
    if a != b { assert Is(a)(Entry(a, "", 0)) && !Is(b)(Entry(a, "", 0)); }
    FilterTwice(name, Is(a), Is(b));
  }

  /** Entries of one type stand in the order of the request, once for each line that names the type. */
  lemma {:induction false} OrderWithinType(nid: string -> Option<nat>, policy: seq<PolicyLine>, name: Name, obj: nat)
    requires forall k :: 0 <= k < |policy| ==> nid(policy[k].field).Some?
    ensures OfType(PolicySubject(nid, policy, name), obj) == Repeat(OfType(name, obj), LinesFor(nid, policy, obj))
  {
    if policy != [] {
      var last := |policy| - 1;
      var front, t := PolicySubject(nid, policy[..last], name), nid(policy[last].field).value;
      OrderWithinType(nid, policy[..last], name, obj);
      FilterConcat(front, OfType(name, t), Is(obj));
      OfTypeOfType(name, t, obj);
    }
  }

  /** The line at k names the type. */
  predicate NamedAt(nid: string -> Option<nat>, policy: seq<PolicyLine>, obj: nat, k: int) {
    0 <= k < |policy| && nid(policy[k].field) == Some(obj)
  }

  /** Lines that name the two types, in this order or the same line for both. */
  ghost predicate InOrder(nid: string -> Option<nat>, policy: seq<PolicyLine>, a: nat, b: nat) {
    exists k, l :: k <= l && NamedAt(nid, policy, a, k) && NamedAt(nid, policy, b, l)
  }

  lemma {:induction false} InOrderLonger(nid: string -> Option<nat>, policy: seq<PolicyLine>, n: nat, a: nat, b: nat)
    requires n <= |policy| && InOrder(nid, policy[..n], a, b)
    ensures InOrder(nid, policy, a, b)
  {
    var k, l :| k <= l && NamedAt(nid, policy[..n], a, k) && NamedAt(nid, policy[..n], b, l);
    assert NamedAt(nid, policy, a, k) && NamedAt(nid, policy, b, l);
  }

  lemma {:induction false} LastInOrder(nid: string -> Option<nat>, policy: seq<PolicyLine>, a: nat, b: nat)
    requires policy != [] && Named(nid, policy, a) && nid(policy[|policy| - 1].field) == Some(b)
    ensures InOrder(nid, policy, a, b)
  {
    var k :| 0 <= k < |policy| && nid(policy[k].field) == Some(a);
    assert NamedAt(nid, policy, a, k) && NamedAt(nid, policy, b, |policy| - 1);
  }

  /** Entries of different types stand in the order of the lines that name them. */
  lemma {:induction false} OrderBetweenTypes(nid: string -> Option<nat>, policy: seq<PolicyLine>, name: Name, i: nat,
                                             j: nat)
    requires forall k :: 0 <= k < |policy| ==> nid(policy[k].field).Some?
    requires i < j < |PolicySubject(nid, policy, name)|
    ensures var subject := PolicySubject(nid, policy, name); InOrder(nid, policy, subject[i].obj, subject[j].obj)
  {
    var last, subject := |policy| - 1, PolicySubject(nid, policy, name);
    var front, t := PolicySubject(nid, policy[..last], name), nid(policy[last].field).value;
    if j < |front| {
      OrderBetweenTypes(nid, policy[..last], name, i, j);
      InOrderLonger(nid, policy, last, subject[i].obj, subject[j].obj);
    } else {
      assert subject[j] in OfType(name, t);
      FilterOnlyKept(name, Is(t), subject[j]);
      SubjectEntries(nid, policy, name, subject[i]);
      LastInOrder(nid, policy, subject[i].obj, subject[j].obj);
    }
  }

  /** With `preserve` the order is that of the request; e-mail entries are taken out of either order. */
  lemma {:induction false} SubjectOrder(nid: string -> Option<nat>, policy: seq<PolicyLine>, name: Name, ca: Name,
                                        preserve: bool, emailDn: bool, email: nat, obj: nat)
    requires CertSubject(nid, policy, name, ca, preserve, emailDn, email).Some?
    ensures var subject := CertSubject(nid, policy, name, ca, preserve, emailDn, email).value;
            && (preserve && emailDn ==> subject == name)
            && OfType(subject, obj) == if !emailDn && obj == email then []
                                       else if preserve then OfType(name, obj)
                                       else Repeat(OfType(name, obj), LinesFor(nid, policy, obj))
  {
    assert forall k :: 0 <= k < |policy| ==> LineHolds(nid, policy[k], name, ca);
    OrderWithinType(nid, policy, name, obj);
    OfTypeWithout(name, email, obj);
    OfTypeWithout(PolicySubject(nid, policy, name), email, obj);
  }

  lemma {:induction false} OfTypeWithout(name: Name, email: nat, obj: nat)
    ensures OfType(Without(name, email), obj) == if obj == email then [] else OfType(name, obj)
  {
    if name != [] {
      var last := |name| - 1;
      OfTypeWithout(name[..last], email, obj);
      FilterConcat(Without(name[..last], email), if name[last].obj != email then [name[last]] else [], Is(obj));
      FilterNext([], name[last], Is(obj));
      assert [] + [name[last]] == [name[last]];
    }
  }
}
