/** The section list of `cmp -section`: names separated by commas and white space, read
    backwards by `prev_item`, so that later sections take precedence. */
module CmpSections {
  import opened CText

  const SECTION_NAME_MAX := 40

  predicate IsSep(c: char) {
    c == ',' || IsSpace(c)
  }

  predicate NoSeps(s: string) {
    forall i :: 0 <= i < |s| ==> !IsSep(s[i])
  }

  predicate AllSeps(s: string) {
    forall i :: 0 <= i < |s| ==> IsSep(s[i])
  }

  /** The list ends in a separator. */
  predicate EndsInSep(s: string) {
    s != "" && IsSep(s[|s| - 1])
  }

  /** The separators: the comma and the white space of the C locale. */
  lemma {:induction false} SepsAre(c: char)
    ensures IsSep(c) <==> c as int in {44, 32, 9, 10, 11, 12, 13}
  {
    SpacesAre(c);
  }

  // ----- Reading forwards -----

  function TokenEnd(s: string, i: nat): (e: nat)
    requires i <= |s|
    ensures i <= e <= |s| && (e < |s| ==> IsSep(s[e]))
    ensures forall k :: i <= k < e ==> !IsSep(s[k])
    decreases |s| - i
  {
    if i < |s| && !IsSep(s[i]) then TokenEnd(s, i + 1) else i
  }

  /** The names between runs of separators. */
  function Split(s: string): seq<string> {
    if s == "" then []
    else if IsSep(s[0]) then Split(s[1..])
    else
      var e := TokenEnd(s, 0);
      [s[..e]] + Split(s[e..])
  }

  // ----- Reading backwards -----

  function ItemStart(s: string, end: nat): (b: nat)
    requires end <= |s|
    ensures b <= end && (b > 0 ==> IsSep(s[b - 1]))
    ensures forall k :: b <= k < end ==> !IsSep(s[k])
  {
    if end > 0 && !IsSep(s[end - 1]) then ItemStart(s, end - 1) else end
  }

  function GapStart(s: string, end: nat): (b: nat)
    requires end <= |s|
    ensures b <= end && (b > 0 ==> !IsSep(s[b - 1]))
    ensures forall k :: b <= k < end ==> IsSep(s[k])
  {
    if end > 0 && IsSep(s[end - 1]) then GapStart(s, end - 1) else end
  }

  function ItemAt(s: string, end: nat): string
    requires end <= |s|
  {
    Cut(s[ItemStart(s, end)..end], SECTION_NAME_MAX)
  }

  function NextEnd(s: string, end: nat): (b: nat)
    requires 0 < end <= |s|
    ensures b < end
  {
    GapStart(s, ItemStart(s, end))
  }

  /** All items that repeated calls of `prev_item` give, in that order. */
  function Items(s: string, end: nat): seq<string>
    requires end <= |s|
  {
    if end == 0 then [] else [ItemAt(s, end)] + Items(s, NextEnd(s, end))
  }

  function CutReversed(names: seq<string>): (r: seq<string>)
    ensures |r| == |names|
    ensures forall i :: 0 <= i < |names| ==> r[i] == Cut(names[|names| - 1 - i], SECTION_NAME_MAX)
  {
    if names == [] then [] else
      [Cut(names[|names| - 1], SECTION_NAME_MAX)] + CutReversed(names[..|names| - 1])
  }

  // ----- Backwards is the reverse of forwards -----

  lemma {:induction false} SplitSeps(gap: string, rest: string)
    requires AllSeps(gap)
    ensures Split(gap + rest) == Split(rest)
  {
    if gap == "" {
      assert gap + rest == rest;
    } else {
      SplitSeps(gap[1..], rest);
      assert (gap + rest)[1..] == gap[1..] + rest;
    }
  }

  lemma {:induction false} SplitToken(tok: string, rest: string)
    requires tok != "" && NoSeps(tok) && (rest == "" || IsSep(rest[0]))
    ensures Split(tok + rest) == [tok] + Split(rest)
  {
    var s := tok + rest;
    var e := TokenEnd(s, 0);
    assert e == |tok| by {
      assert forall k :: 0 <= k < |tok| ==> s[k] == tok[k];
      assert |tok| < |s| ==> s[|tok|] == rest[0];
    }
    assert s[..e] == tok && s[e..] == rest;
  }

  /** A gap and a name after a list add the name at the end. */
  lemma {:induction false} SplitSnoc(p: string, gap: string, tok: string)
    requires AllSeps(gap) && tok != "" && NoSeps(tok) && (p == "" || (gap != "" && !EndsInSep(p)))
    ensures Split(p + (gap + tok)) == Split(p) + [tok]
    decreases |p|
  {
    if p == "" {
      assert p + (gap + tok) == gap + tok;
      SplitSeps(gap, tok);
      SplitToken(tok, "");
      assert tok + "" == tok;
    } else if IsSep(p[0]) {
      assert (p + (gap + tok))[1..] == p[1..] + (gap + tok);
      SplitSnoc(p[1..], gap, tok);
    } else {
      var e := TokenEnd(p, 0);
      var rest := p[e..] + (gap + tok);
      assert p == p[..e] + p[e..] && p + (gap + tok) == p[..e] + rest;
      assert IsSep(rest[0]);
      SplitToken(p[..e], rest);
      SplitSnoc(p[e..], gap, tok);
    }
  }

  lemma {:induction false} SplitTrail(p: string, gap: string)
    requires AllSeps(gap)
    ensures Split(p + gap) == Split(p)
    decreases |p|
  {
    if p == "" {
      SplitSeps(gap, "");
      assert gap + "" == gap && p + gap == gap;
    } else if IsSep(p[0]) {
      assert (p + gap)[1..] == p[1..] + gap;
      SplitTrail(p[1..], gap);
    } else {
      var e := TokenEnd(p, 0);
      assert p == p[..e] + p[e..] && p + gap == p[..e] + (p[e..] + gap);
      SplitToken(p[..e], p[e..] + gap);
      SplitTrail(p[e..], gap);
    }
  }

  lemma {:induction false} StartsDependOnPrefix(s: string, t: string, end: nat)
    requires end <= |s| && end <= |t| && s[..end] == t[..end]
    ensures ItemStart(s, end) == ItemStart(t, end) && GapStart(s, end) == GapStart(t, end)
  {
    if end > 0 {
      assert s[end - 1] == s[..end][end - 1] == t[..end][end - 1];
      assert s[..end - 1] == s[..end][..end - 1] && t[..end - 1] == t[..end][..end - 1];
      StartsDependOnPrefix(s, t, end - 1);
    }
  }

  lemma {:induction false} ItemsDependOnPrefix(s: string, end: nat, n: nat)
    requires end <= n <= |s|
    ensures Items(s, end) == Items(s[..n], end)
    decreases end
  {
    if end > 0 {
      var b := ItemStart(s, end);
      assert s[..end] == s[..n][..end] && s[..b] == s[..n][..b];
      StartsDependOnPrefix(s, s[..n], end);
      StartsDependOnPrefix(s, s[..n], b);
      assert s[b..end] == s[..n][b..end];
      ItemsDependOnPrefix(s, NextEnd(s, end), n);
    }
  }

  lemma {:induction false} ThreeParts(s: string, g: nat, b: nat)
    requires g <= b <= |s|
    ensures s == s[..g] + (s[g..b] + s[b..|s|])
  {
  }

  /** The three parts of a list that ends in a name: what is before, a gap, and the name. */
  lemma {:induction false} LastParts(s: string, g: nat, b: nat)
    requires s != "" && !EndsInSep(s) && b == ItemStart(s, |s|) && g == GapStart(s, b)
    ensures AllSeps(s[g..b]) && s[b..|s|] != "" && NoSeps(s[b..|s|]) && !EndsInSep(s[..g])
    ensures s[..g] == "" || s[g..b] != ""
  {
    assert b < |s|;
    assert forall k :: 0 <= k < b - g ==> s[g..b][k] == s[g + k];
    assert forall k :: 0 <= k < |s| - b ==> s[b..|s|][k] == s[b + k];
  }

  /** The last name of a list, and the list before it. */
  lemma {:induction false} LastName(s: string)
    requires s != "" && !EndsInSep(s)
    ensures var b, g := ItemStart(s, |s|), NextEnd(s, |s|);
            !EndsInSep(s[..g]) && Split(s) == Split(s[..g]) + [s[b..|s|]]
  {
    var b := ItemStart(s, |s|);
    var g := GapStart(s, b);
    LastParts(s, g, b);
    ThreeParts(s, g, b);
    SplitSnoc(s[..g], s[g..b], s[b..|s|]);
  }

  lemma {:induction false} CutReversedSnoc(names: seq<string>, name: string)
    ensures CutReversed(names + [name]) == [Cut(name, SECTION_NAME_MAX)] + CutReversed(names)
  {
    assert (names + [name])[..|names|] == names;
  }

  /** For a list that does not end in a separator, the items are the forward split reversed,
      each cut to 40 characters. */
  lemma {:induction false} ItemsReverseSplit(s: string)
    requires !EndsInSep(s)
    ensures Items(s, |s|) == CutReversed(Split(s))
    decreases |s|
  {
    if s != "" {
      var b, g := ItemStart(s, |s|), NextEnd(s, |s|);
      LastName(s);
      CutReversedSnoc(Split(s[..g]), s[b..|s|]);
      ItemsReverseSplit(s[..g]);
      ItemsDependOnPrefix(s, g, g);
    }
  }

  lemma {:induction false} SplitNamesNonEmpty(s: string)
    ensures forall k :: 0 <= k < |Split(s)| ==> Split(s)[k] != ""
    decreases |s|
  {
    if s != "" {
      if IsSep(s[0]) { SplitNamesNonEmpty(s[1..]); } else { SplitNamesNonEmpty(s[TokenEnd(s, 0)..]); }
    }
  }

  /** And only then: after a separator at the end, the first item is empty. */
  lemma {:induction false} ItemsReverseSplitExactly(s: string)
    ensures Items(s, |s|) == CutReversed(Split(s)) <==> !EndsInSep(s)
  {
    if EndsInSep(s) {
      FirstItemEmpty(s);
      SplitNamesNonEmpty(s);
      var names := Split(s);
      assert names != [] ==> CutReversed(names)[0] == Cut(names[|names| - 1], SECTION_NAME_MAX) != "";
    } else {
      ItemsReverseSplit(s);
    }
  }

  lemma {:induction false} FirstItemEmpty(s: string)
    requires EndsInSep(s)
    ensures Items(s, |s|) != [] && Items(s, |s|)[0] == ""
  {
    assert ItemStart(s, |s|) == |s|;
  }

  lemma {:induction false} TwoNames(a: string, gap: string, b: string)
    requires a != "" && b != "" && gap != "" && NoSeps(a) && AllSeps(gap) && NoSeps(b)
    ensures var s := a + (gap + b); Split(s) == [a] + [b] && !EndsInSep(s)
  {
    SplitSnoc(a, gap, b);
    SplitToken(a, "");
    assert a + "" == a;
    var s := a + (gap + b);
    assert s[|s| - 1] == b[|b| - 1];
  }

  /** Two names with separators between them: read forwards they are the names, read backwards the
      second comes first. */
  lemma {:induction false} TwoSections(a: string, gap: string, b: string)
    requires a != "" && b != "" && gap != "" && NoSeps(a) && AllSeps(gap) && NoSeps(b)
    ensures var s := a + (gap + b); Split(s) == [a] + [b] && Items(s, |s|) == [Cut(b, 40)] + [Cut(a, 40)]
  {
    TwoNames(a, gap, b);
    ItemsReverseSplit(a + (gap + b));
    CutReversedSnoc([a], b);
    CutReversedSnoc([], a);
    assert [] + [a] == [a];
    assert CutReversed([]) == [];
  }

  // ----- The code -----

  /** `prev_item`: the item before `end` in the static buffer, and the end of the next one. */
  method PrevItem(opt: string, end: nat, optItem: array<char>) returns (next: Option<nat>)
    requires end <= |opt| && NoNul(opt) && optItem.Length == SECTION_NAME_MAX + 1
    modifies optItem
    ensures end == 0 ==> next == None
    ensures end > 0 ==> next == Some(NextEnd(opt, end)) && Holds(optItem, ItemAt(opt, end))
  {
    if end == 0 { return None; }
    var beg := end;
    while beg > 0 && !IsSep(opt[beg - 1])
      invariant 0 <= beg <= end && ItemStart(opt, beg) == ItemStart(opt, end)
    {
      beg := beg - 1;
    }
    var len := end - beg;
    if len > SECTION_NAME_MAX { len := SECTION_NAME_MAX; }
    forall i | 0 <= i < len { optItem[i] := opt[beg + i]; }
    optItem[len] := '\0';
    assert optItem[..len] == ItemAt(opt, end);
    while beg > 0 && IsSep(opt[beg - 1])
      invariant 0 <= beg <= end && GapStart(opt, beg) == NextEnd(opt, end)
    {
      beg := beg - 1;
    }
    return Some(beg);
  }

  /** The first of the items for which the section defines the name. */
  function FirstDefined(items: seq<string>, conf: string -> Option<string>): Option<string> {
    if items == [] then None
    else if conf(items[0]).Some? then conf(items[0])
    else FirstDefined(items[1..], conf)
  }

  /** The value in the last of the sections that defines the name. */
  function LastDefined(names: seq<string>, conf: string -> Option<string>): Option<string> {
    if names == [] then None
    else
      var value := conf(Cut(names[|names| - 1], SECTION_NAME_MAX));
      if value.Some? then value else LastDefined(names[..|names| - 1], conf)
  }

  /** The section at k, cut to 40 characters, defines the name, and none after it does. */
  ghost predicate RightmostAt(names: seq<string>, conf: string -> Option<string>, k: nat) {
    k < |names| && conf(Cut(names[k], 40)).Some? && forall j :: k < j < |names| ==> conf(Cut(names[j], 40)).None?
  }

  /** The value comes from that section. */
  lemma {:induction false} RightmostIs(names: seq<string>, conf: string -> Option<string>, k: nat)
    requires RightmostAt(names, conf, k)
    ensures LastDefined(names, conf) == conf(Cut(names[k], 40))
  {
    var last := |names| - 1;
    if k < last {
      assert conf(Cut(names[last], 40)).None?;
      RightmostIs(names[..last], conf, k);
    }
  }

  /** There is no value exactly when no section defines the name. */
  lemma {:induction false} NoneDefined(names: seq<string>, conf: string -> Option<string>)
    ensures LastDefined(names, conf).None? <==> forall k :: 0 <= k < |names| ==> conf(Cut(names[k], 40)).None?
  {
    if names != [] { NoneDefined(names[..|names| - 1], conf); }
  }

  lemma {:induction false} FirstOfReversed(names: seq<string>, conf: string -> Option<string>)
    ensures FirstDefined(CutReversed(names), conf) == LastDefined(names, conf)
  {
    if names != [] {
      FirstOfReversed(names[..|names| - 1], conf);
      assert CutReversed(names)[1..] == CutReversed(names[..|names| - 1]);
    }
  }

  /** Separators at the end only matter if a section with the empty name defines the name. */
  lemma {:induction false} RightmostWins(groups: string, conf: string -> Option<string>)
    ensures FirstDefined(Items(groups, |groups|), conf)
            == if EndsInSep(groups) && conf("").Some? then conf("") else LastDefined(Split(groups), conf)
  {
    if EndsInSep(groups) {
      var g := GapStart(groups, |groups|);
      var p := groups[..g];
      assert groups == p + groups[g..];
      SplitTrail(p, groups[g..]);
      ItemsAfterSeps(groups);
      ItemsDependOnPrefix(groups, g, g);
      ItemsReverseSplit(p);
    } else {
      ItemsReverseSplit(groups);
    }
    FirstOfReversed(Split(groups), conf);
  }

  lemma {:induction false} ItemsAfterSeps(s: string)
    requires EndsInSep(s)
    ensures Items(s, |s|) == [""] + Items(s, GapStart(s, |s|))
  {
    assert ItemStart(s, |s|) == |s|;
  }

  /** `conf_get_string`, where `conf` looks a name up in a section. */
  method ConfGetString(conf: string -> Option<string>, groups: string) returns (res: Option<string>)
    requires NoNul(groups)
    ensures res == if EndsInSep(groups) && conf("").Some? then conf("") else LastDefined(Split(groups), conf)
  {
    RightmostWins(groups, conf);
    var optItem := new char[SECTION_NAME_MAX + 1](_ => '\0');
    var end := |groups|;
    while true
      invariant 0 <= end <= |groups|
      invariant FirstDefined(Items(groups, |groups|), conf) == FirstDefined(Items(groups, end), conf)
      decreases end
    {
      var next := PrevItem(groups, end, optItem);
      if next.None? { return None; }
      var item := TextOf(optItem, ItemAt(groups, end));
      res := conf(item);
      if res.Some? { return; }
      assert Items(groups, end)[1..] == Items(groups, next.value);
      end := next.value;
    }
  }

  /** The string in a buffer, up to its terminator. */
  method TextOf(buf: array<char>, ghost text: string) returns (s: string)
    requires Holds(buf, text)
    ensures s == text
  {
    assert forall i :: 0 <= i < |text| ==> buf[i] == text[i];
    var n := 0;
    while buf[n] != '\0'
      invariant 0 <= n <= |text|
      decreases |text| - n
    {
      n := n + 1;
    }
    s := buf[..n];
  }
}
