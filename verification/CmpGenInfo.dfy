/** The `-geninfo` argument of `cmp`: a comma-separated list of `OID:int:N` and `OID:str:T`,
    split in place. */
module CmpGenInfo {
  import opened CText

  datatype Value = Int(n: int) | Text(t: string)
  datatype Item = Item(oid: string, value: Value)

  /** The library calls: which texts are object identifiers, and `strtol`, which returns the
      number and how much of the text it took. */
  datatype Lib = Lib(isOid: string -> bool, strtol: string -> (int, nat)) {
    ghost predicate Ok() {
      forall s :: strtol(s).1 <= |s|
    }
  }

  // ----- Reading -----

  /** `HAS_CASE_PREFIX` for a word of three letters and a colon. */
  predicate HasWord(s: string, a: char, b: char, c: char) {
    |s| >= 4 && ToUpper(s[0]) == a && ToUpper(s[1]) == b && ToUpper(s[2]) == c && s[3] == ':'
  }

  /** A value, and how much of the text it takes with the comma after it. */
  function ParseValue(lib: Lib, s: string): (r: Option<(Value, nat)>)
    requires lib.Ok()
    ensures r.Some? ==> r.value.1 <= |s|
  {
    if HasWord(s, 'I', 'N', 'T') then
      var (n, end) := lib.strtol(s[4..]);
      var e := 4 + end;
      if end == 0 || (e < |s| && s[e] != ',') then None
      else Some((Int(n), if e < |s| then e + 1 else e))
    else if HasWord(s, 'S', 'T', 'R') then
      var e := CharAt(s, ',', 4);
      Some((Text(s[4..e]), if e < |s| then e + 1 else e))
    else None
  }

  /** The text up to the colon, without leading white space, and where the colon's successor is. */
  function ParseOid(s: string): (r: Option<(string, nat)>)
    ensures r.Some? ==> 0 < r.value.1 <= |s|
  {
    var p := SpaceEnd(s, 0);
    var c := CharAt(s, ':', p);
    if c == |s| then None else Some((s[p..c], c + 1))
  }

  /** An item, and how much of the text it takes. */
  function ParseItem(lib: Lib, s: string): (r: Option<(Item, nat)>)
    requires lib.Ok()
    ensures r.Some? ==> 0 < r.value.1 <= |s|
  {
    match ParseOid(s)
    case None => None
    case Some((oid, n)) =>
      if !lib.isOid(oid) then None
      else match ParseValue(lib, s[n..])
        case None => None
        case Some((value, taken)) => Some((Item(oid, value), n + taken))
  }

  /** A reader takes an item and some text from the front, or fails. */
  type Reader = string -> Option<(Item, nat)>

  ghost predicate Progress(read: Reader) {
    forall s :: read(s).Some? ==> 0 < read(s).value.1 <= |s|
  }

  /** Items until the text is used up, at least one. */
  ghost function ReadAll(read: Reader, s: string): Option<seq<Item>>
    requires Progress(read)
    decreases |s|
  {
    match read(s)
    case None => None
    case Some((item, taken)) =>
      if taken == |s| then Some([item]) else Prepend([item], ReadAll(read, s[taken..]))
  }

  function Prepend(front: seq<Item>, items: Option<seq<Item>>): Option<seq<Item>> {
    match items case None => None case Some(rest) => Some(front + rest)
  }

  ghost predicate Reads(lib: Lib, read: Reader)
    requires lib.Ok()
  {
    Progress(read) && forall s {:trigger ParseItem(lib, s)} :: read(s) == ParseItem(lib, s)
  }

  ghost function ItemReader(lib: Lib): (read: Reader)
    requires lib.Ok()
    ensures Reads(lib, read)
  {
    (s: string) => if lib.Ok() then ParseItem(lib, s) else None
  }

  /** The whole argument. Every item takes at least its colon, so the loop makes progress. */
  ghost function Parse(lib: Lib, s: string): Option<seq<Item>>
    requires lib.Ok()
  {
    ReadAll(ItemReader(lib), s)
  }

  // ----- Printing -----

  function PrintInt(n: int): string {
    if n < 0 then "-" + PrintDec(-n) else PrintDec(n)
  }

  function PrintValue(v: Value): string {
    match v case Int(n) => "int:" + PrintInt(n) case Text(t) => "str:" + t
  }

  function PrintItem(item: Item): string {
    item.oid + (":" + PrintValue(item.value))
  }

  function Join(texts: seq<string>): string
    requires texts != []
  {
    if |texts| == 1 then texts[0] else texts[0] + ("," + Join(texts[1..]))
  }

  function Printed(items: seq<Item>): seq<string> {
    if items == [] then [] else [PrintItem(items[0])] + Printed(items[1..])
  }

  function PrintItems(items: seq<Item>): string
    requires items != []
  {
    Join(Printed(items))
  }

  predicate ValueOk(v: Value) {
    match v case Int(n) => LONG_MIN <= n <= LONG_MAX case Text(t) => Lacks(t, ',')
  }

  /** An item that can be written: a recognised OID without colons or leading white space, a
      number in range or a text without commas. */
  predicate Writable(lib: Lib, item: Item) {
    lib.isOid(item.oid) && Lacks(item.oid, ':') && (item.oid != "" ==> !IsSpace(item.oid[0])) && ValueOk(item.value)
  }

  /** The text after a printed item: nothing, or a comma and more. */
  predicate Follows(rest: string) {
    rest == "" || rest[0] == ','
  }

  function CommaSize(rest: string): nat {
    if rest == "" then 0 else 1
  }

  // ----- Round trip -----

  /** `strtol` reads printed numbers back. */
  ghost predicate ReadsNumbers(lib: Lib) {
    forall n, rest :: LONG_MIN <= n <= LONG_MAX && Follows(rest) ==>
      lib.strtol(PrintInt(n) + rest) == (n, |PrintInt(n)|)
  }

  lemma {:induction false} ParsePrintedInt(lib: Lib, digits: string, n: int, rest: string)
    requires lib.Ok() && digits != "" && Follows(rest) && lib.strtol(digits + rest) == (n, |digits|)
    ensures ParseValue(lib, "int:" + (digits + rest)) == Some((Int(n), 4 + |digits| + CommaSize(rest)))
  {
    var s := "int:" + (digits + rest);
    assert s[4..] == digits + rest;
    assert rest != "" ==> s[4 + |digits|] == rest[0];
  }

  lemma {:induction false} ParsePrintedText(lib: Lib, t: string, rest: string)
    requires lib.Ok() && Lacks(t, ',') && Follows(rest)
    ensures ParseValue(lib, "str:" + (t + rest)) == Some((Text(t), 4 + |t| + CommaSize(rest)))
  {
    var s := "str:" + (t + rest);
    assert s[4..4 + |t|] == t;
    assert rest != "" ==> s[4 + |t|] == rest[0];
    CharAtIs(s, ',', 4, 4 + |t|);
  }

  lemma {:induction false} PrintedIntReads(lib: Lib, n: int, rest: string)
    requires lib.Ok() && lib.strtol(PrintInt(n) + rest) == (n, |PrintInt(n)|) && Follows(rest)
    ensures ParseValue(lib, PrintValue(Int(n)) + rest) == Some((Int(n), |PrintValue(Int(n))| + CommaSize(rest)))
  {
    PrintDecDigits(if n < 0 then -n else n);
    ParsePrintedInt(lib, PrintInt(n), n, rest);
    ConcatAssoc("int:", PrintInt(n), rest);
  }

  lemma {:induction false} PrintedTextReads(lib: Lib, t: string, rest: string)
    requires lib.Ok() && Lacks(t, ',') && Follows(rest)
    ensures ParseValue(lib, PrintValue(Text(t)) + rest) == Some((Text(t), |PrintValue(Text(t))| + CommaSize(rest)))
  {
    ParsePrintedText(lib, t, rest);
    ConcatAssoc("str:", t, rest);
  }

  lemma {:induction false} ParsePrintedValue(lib: Lib, v: Value, rest: string)
    requires lib.Ok() && ReadsNumbers(lib) && ValueOk(v) && Follows(rest)
    ensures ParseValue(lib, PrintValue(v) + rest) == Some((v, |PrintValue(v)| + CommaSize(rest)))
  {
    match v
    case Int(n) => PrintedIntReads(lib, n, rest);
    case Text(t) => PrintedTextReads(lib, t, rest);
  }

  lemma {:induction false} OidSplit(oid: string, tail: string)
    requires Lacks(oid, ':') && (oid != "" ==> !IsSpace(oid[0]))
    ensures var s := oid + (":" + tail);
            ParseOid(s) == Some((oid, |oid| + 1)) && s[|oid| + 1..] == tail
  {
    var s := oid + (":" + tail);
    assert s[0..|oid|] == oid && s[|oid|] == ':';
    assert s[0] == if oid == "" then ':' else oid[0];
    CharAtIs(s, ':', 0, |oid|);
  }

  lemma {:induction false} ItemOf(lib: Lib, s: string, oid: string, n: nat, value: Value, taken: nat)
    requires lib.Ok() && ParseOid(s) == Some((oid, n)) && lib.isOid(oid)
    requires ParseValue(lib, s[n..]) == Some((value, taken))
    ensures ParseItem(lib, s) == Some((Item(oid, value), n + taken))
  {
  }

  lemma {:induction false} ParseItemFrom(lib: Lib, oid: string, tail: string, value: Value, taken: nat)
    requires lib.Ok() && lib.isOid(oid) && Lacks(oid, ':') && (oid != "" ==> !IsSpace(oid[0]))
    requires ParseValue(lib, tail) == Some((value, taken))
    ensures ParseItem(lib, oid + (":" + tail)) == Some((Item(oid, value), |oid| + 1 + taken))
  {
    OidSplit(oid, tail);
    ItemOf(lib, oid + (":" + tail), oid, |oid| + 1, value, taken);
  }

  lemma {:induction false} ItemAssoc(oid: string, value: string, rest: string)
    ensures oid + (":" + value) + rest == oid + (":" + (value + rest))
  {
  }

  lemma {:induction false} ItemReads(lib: Lib, oid: string, text: string, v: Value, rest: string)
    requires lib.Ok() && lib.isOid(oid) && Lacks(oid, ':') && (oid != "" ==> !IsSpace(oid[0]))
    requires ParseValue(lib, text + rest) == Some((v, |text| + CommaSize(rest)))
    ensures ParseItem(lib, oid + (":" + text) + rest) == Some((Item(oid, v), |oid + (":" + text)| + CommaSize(rest)))
  {
    ParseItemFrom(lib, oid, text + rest, v, |text| + CommaSize(rest));
    ItemAssoc(oid, text, rest);
  }

  lemma {:induction false} ReadMore(read: Reader, text: string, item: Item, rest: string, items: seq<Item>)
    requires Progress(read) && read(text + ("," + rest)) == Some((item, |text| + 1))
    requires rest != "" && ReadAll(read, rest) == Some(items)
    ensures ReadAll(read, text + ("," + rest)) == Some([item] + items)
  {
    assert (text + ("," + rest))[|text| + 1..] == rest;
  }

  lemma {:induction false} ReadLast(read: Reader, text: string, item: Item)
    requires Progress(read) && read(text + "") == Some((item, |text|))
    ensures ReadAll(read, text) == Some([item])
  {
    assert text + "" == text;
  }

  /** An item reads back from a text, with nothing or a comma after it. */
  ghost predicate ReadsBack(read: Reader, text: string, item: Item) {
    text != "" && forall rest | Follows(rest) :: read(text + rest) == Some((item, |text| + CommaSize(rest)))
  }

  lemma {:induction false} ReadOne(read: Reader, text: string, item: Item)
    requires Progress(read) && ReadsBack(read, text, item)
    ensures ReadAll(read, text) == Some([item])
  {
    assert Follows("");
    ReadLast(read, text, item);
  }

  lemma {:induction false} ReadAnother(read: Reader, text: string, item: Item, rest: string, items: seq<Item>)
    requires Progress(read) && ReadsBack(read, text, item) && rest != "" && ReadAll(read, rest) == Some(items)
    ensures ReadAll(read, text + ("," + rest)) == Some([item] + items)
  {
    assert Follows("," + rest);
    ReadMore(read, text, item, rest, items);
  }

  ghost predicate AllReadBack(read: Reader, texts: seq<string>, items: seq<Item>) {
    |texts| == |items|
    && (texts != [] ==> ReadsBack(read, texts[0], items[0]) && AllReadBack(read, texts[1..], items[1..]))
  }

  lemma {:induction false} ReadAllJoined(read: Reader, texts: seq<string>, items: seq<Item>)
    requires Progress(read) && texts != [] && AllReadBack(read, texts, items)
    ensures Join(texts) != "" && ReadAll(read, Join(texts)) == Some(items)
    decreases |items|
  {
    if |items| == 1 {
      ReadOne(read, texts[0], items[0]);
      assert items == [items[0]];
    } else {
      var text, rest, tail := texts[0], Join(texts[1..]), items[1..];
      ReadAllJoined(read, texts[1..], tail);
      ReadAnother(read, text, items[0], rest, tail);
      assert items == [items[0]] + tail;
    }
  }

  /** A reader of values, like the one of items. */
  type ValueReader = string -> Option<(Value, nat)>

  ghost predicate ReadsValues(lib: Lib, read: ValueReader)
    requires lib.Ok()
  {
    forall s {:trigger ParseValue(lib, s)} :: read(s) == ParseValue(lib, s)
  }

  ghost function ReaderOfValues(lib: Lib): (read: ValueReader)
    requires lib.Ok()
    ensures ReadsValues(lib, read)
  {
    (s: string) => if lib.Ok() then ParseValue(lib, s) else None
  }

  /** A value reads back from a text, with nothing or a comma after it. */
  ghost predicate ValueReadsBack(read: ValueReader, text: string, v: Value) {
    forall rest | Follows(rest) :: read(text + rest) == Some((v, |text| + CommaSize(rest)))
  }

  lemma {:induction false} PrintedValueReadsBack(lib: Lib, v: Value)
    requires lib.Ok() && ReadsNumbers(lib) && ValueOk(v)
    ensures ValueReadsBack(ReaderOfValues(lib), PrintValue(v), v)
  {
    var read := ReaderOfValues(lib);
    forall rest | Follows(rest)
      ensures read(PrintValue(v) + rest) == Some((v, |PrintValue(v)| + CommaSize(rest)))
    {
      ParsePrintedValue(lib, v, rest);
    }
  }

  lemma {:induction false} ItemReadsOnce(lib: Lib, read: Reader, valueOf: ValueReader, oid: string, text: string,
                                         v: Value, rest: string)
    requires lib.Ok() && Reads(lib, read) && ReadsValues(lib, valueOf)
    requires lib.isOid(oid) && Lacks(oid, ':') && (oid != "" ==> !IsSpace(oid[0]))
    requires valueOf(text + rest) == Some((v, |text| + CommaSize(rest)))
    ensures read(oid + (":" + text) + rest) == Some((Item(oid, v), |oid + (":" + text)| + CommaSize(rest)))
  {
    assert ParseValue(lib, text + rest) == valueOf(text + rest);
    ItemReads(lib, oid, text, v, rest);
  }

  lemma {:induction false} ItemReadsBack(lib: Lib, read: Reader, valueOf: ValueReader, oid: string, text: string,
                                         v: Value)
    requires lib.Ok() && Reads(lib, read) && ReadsValues(lib, valueOf) && ValueReadsBack(valueOf, text, v)
    requires lib.isOid(oid) && Lacks(oid, ':') && (oid != "" ==> !IsSpace(oid[0]))
    ensures ReadsBack(read, oid + (":" + text), Item(oid, v))
  {
    var s := oid + (":" + text);
    forall rest | Follows(rest) ensures read(s + rest) == Some((Item(oid, v), |s| + CommaSize(rest))) {
      ItemReadsOnce(lib, read, valueOf, oid, text, v, rest);
    }
  }

  lemma {:induction false} WritableReadsBack(lib: Lib, item: Item)
    requires lib.Ok() && ReadsNumbers(lib) && Writable(lib, item)
    ensures ReadsBack(ItemReader(lib), PrintItem(item), item)
  {
    PrintedValueReadsBack(lib, item.value);
    ItemReadsBack(lib, ItemReader(lib), ReaderOfValues(lib), item.oid, PrintValue(item.value), item.value);
  }

  lemma {:induction false} AllWritableReadBack(lib: Lib, items: seq<Item>)
    requires lib.Ok() && ReadsNumbers(lib) && forall k :: 0 <= k < |items| ==> Writable(lib, items[k])
    ensures AllReadBack(ItemReader(lib), Printed(items), items)
  {
    if items != [] {
      WritableReadsBack(lib, items[0]);
      AllWritableReadBack(lib, items[1..]);
      assert Printed(items)[1..] == Printed(items[1..]);
    }
  }

  /** Parsing the printed form of any non-empty list of writable items returns that list. */
  lemma {:induction false} PrintParseRoundTrip(lib: Lib, items: seq<Item>)
    requires lib.Ok() && ReadsNumbers(lib)
    requires items != [] && forall k :: 0 <= k < |items| ==> Writable(lib, items[k])
    ensures Parse(lib, PrintItems(items)) == Some(items)
  {
    AllWritableReadBack(lib, items);
    ReadAllJoined(ItemReader(lib), Printed(items), items);
  }

  // ----- White space and a last comma -----

  /** A result that took some of the text from ptr on, as a new position. */
  function From<T>(ptr: nat, r: Option<(T, nat)>): Option<(T, nat)> {
    match r case None => None case Some((x, taken)) => Some((x, ptr + taken))
  }

  lemma {:induction false} SpaceEndAfter(space: string, s: string)
    requires AllSpaces(space)
    ensures SpaceEnd(space + s, 0) == |space| + SpaceEnd(s, 0)
  {
    var j := SpaceEnd(s, 0);
    SpaceEndStops(s, 0);
    var t := space + s;
    assert t[0..|space| + j] == space + s[0..j];
    SpaceEndIs(t, 0, |space| + j);
  }

  lemma {:induction false} SpaceEndStops(s: string, i: nat)
    requires i <= |s|
    ensures var j := SpaceEnd(s, i); AllSpaces(s[i..j]) && (j < |s| ==> !IsSpace(s[j]))
    decreases |s| - i
  {
    if i < |s| && IsSpace(s[i]) {
      SpaceEndStops(s, i + 1);
      assert s[i..SpaceEnd(s, i)] == [s[i]] + s[i + 1..SpaceEnd(s, i)];
    }
  }

  lemma {:induction false} CharAtAfter(front: string, s: string, c: char, i: nat)
    requires i <= |s|
    ensures CharAt(front + s, c, |front| + i) == |front| + CharAt(s, c, i)
    decreases |s| - i
  {
    if i < |s| && s[i] != c { CharAtAfter(front, s, c, i + 1); }
  }

  lemma {:induction false} OidAfterSpace(space: string, s: string)
    requires AllSpaces(space)
    ensures ParseOid(space + s) == From(|space|, ParseOid(s))
  {
    SpaceEndAfter(space, s);
    var p := SpaceEnd(s, 0);
    CharAtAfter(space, s, ':', p);
    var c := CharAt(s, ':', p);
    assert (space + s)[|space| + p..|space| + c] == s[p..c];
  }

  /** White space in front of an item is skipped. */
  lemma {:induction false} ItemAfterSpace(lib: Lib, space: string, s: string)
    requires lib.Ok() && AllSpaces(space)
    ensures ParseItem(lib, space + s) == From(|space|, ParseItem(lib, s))
  {
    OidAfterSpace(space, s);
    if ParseOid(s).Some? {
      var n := ParseOid(s).value.1;
      assert (space + s)[|space| + n..] == s[n..];
    }
  }

  lemma {:induction false} ReadAfterSpace(lib: Lib, read: Reader, space: string, s: string)
    requires lib.Ok() && Reads(lib, read) && AllSpaces(space)
    ensures read(space + s) == From(|space|, read(s))
  {
    ItemAfterSpace(lib, space, s);
    assert read(s) == ParseItem(lib, s) && read(space + s) == ParseItem(lib, space + s);
  }

  lemma {:induction false} SpacedReadsBack(lib: Lib, read: Reader, space: string, text: string, item: Item)
    requires lib.Ok() && Reads(lib, read) && AllSpaces(space) && ReadsBack(read, text, item)
    ensures ReadsBack(read, space + text, item)
  {
    forall rest | Follows(rest)
      ensures read(space + text + rest) == Some((item, |space + text| + CommaSize(rest)))
    {
      ReadAfterSpace(lib, read, space, text + rest);
      ConcatAssoc(space, text, rest);
    }
  }

  /** The printed items, each with white space in front. */
  function Spaced(spaces: seq<string>, items: seq<Item>): seq<string>
    requires |spaces| == |items|
  {
    if items == [] then [] else [spaces[0] + PrintItem(items[0])] + Spaced(spaces[1..], items[1..])
  }

  lemma {:induction false} AllSpacedReadBack(lib: Lib, spaces: seq<string>, items: seq<Item>)
    requires lib.Ok() && ReadsNumbers(lib) && forall k :: 0 <= k < |items| ==> Writable(lib, items[k])
    requires |spaces| == |items| && forall k :: 0 <= k < |spaces| ==> AllSpaces(spaces[k])
    ensures AllReadBack(ItemReader(lib), Spaced(spaces, items), items)
  {
    if items != [] {
      WritableReadsBack(lib, items[0]);
      SpacedReadsBack(lib, ItemReader(lib), spaces[0], PrintItem(items[0]), items[0]);
      AllSpacedReadBack(lib, spaces[1..], items[1..]);
      assert Spaced(spaces, items)[1..] == Spaced(spaces[1..], items[1..]);
    }
  }

  lemma {:induction false} CommaAtEnd(read: Reader, texts: seq<string>, items: seq<Item>)
    requires Progress(read) && texts != [] && AllReadBack(read, texts, items)
    ensures ReadAll(read, Join(texts) + ",") == Some(items)
    decreases |items|
  {
    if |items| == 1 {
      assert Follows(",");
      assert items == [items[0]];
    } else {
      var text, rest, tail := texts[0], Join(texts[1..]), items[1..];
      CommaAtEnd(read, texts[1..], tail);
      ReadAnother(read, text, items[0], rest + ",", tail);
      assert Join(texts) + "," == text + ("," + (rest + ","));
      assert items == [items[0]] + tail;
    }
  }

  /** The list is read the same with white space in front of any item, and with a comma at the end. */
  lemma {:induction false} SpacedRoundTrip(lib: Lib, spaces: seq<string>, items: seq<Item>)
    requires lib.Ok() && ReadsNumbers(lib)
    requires items != [] && forall k :: 0 <= k < |items| ==> Writable(lib, items[k])
    requires |spaces| == |items| && forall k :: 0 <= k < |spaces| ==> AllSpaces(spaces[k])
    ensures var text := Join(Spaced(spaces, items));
            Parse(lib, text) == Parse(lib, text + ",") == Some(items)
  {
    AllSpacedReadBack(lib, spaces, items);
    ReadAllJoined(ItemReader(lib), Spaced(spaces, items), items);
    CommaAtEnd(ItemReader(lib), Spaced(spaces, items), items);
  }

  // ----- What is refused -----

  /** The words may be written in either case. */
  lemma {:induction false} WordsAre(s: string)
    ensures HasWord(s, 'I', 'N', 'T')
            <==> |s| >= 4 && s[0] in {'i', 'I'} && s[1] in {'n', 'N'} && s[2] in {'t', 'T'} && s[3] == ':'
    ensures HasWord(s, 'S', 'T', 'R')
            <==> |s| >= 4 && s[0] in {'s', 'S'} && s[1] in {'t', 'T'} && s[2] in {'r', 'R'} && s[3] == ':'
  {
  }

  /** No colon, no item. */
  lemma {:induction false} NoColon(lib: Lib, s: string)
    requires lib.Ok() && Lacks(s, ':')
    ensures Parse(lib, s) == None
  {
    var p := SpaceEnd(s, 0);
    CharAtIs(s, ':', p, |s|);
    assert ParseItem(lib, s) == None;
  }

  /** The number after `int:` is missing, or something other than a comma follows it. */
  predicate BadNumber(lib: Lib, s: string)
    requires lib.Ok()
  {
    var end := lib.strtol(s).1;
    end == 0 || (end < |s| && s[end] != ',')
  }

  /** An item with a colon is refused exactly for its object identifier, for the lack of a known word
      after it, or for a bad number. */
  lemma {:induction false} ItemRefused(lib: Lib, oid: string, tail: string)
    requires lib.Ok() && Lacks(oid, ':') && (oid != "" ==> !IsSpace(oid[0]))
    ensures ParseItem(lib, oid + (":" + tail)).None?
            <==> !lib.isOid(oid) || (!HasWord(tail, 'I', 'N', 'T') && !HasWord(tail, 'S', 'T', 'R'))
                 || (HasWord(tail, 'I', 'N', 'T') && BadNumber(lib, tail[4..]))
  {
    OidSplit(oid, tail);
  }

  function RealStrtol(): string -> (int, nat) {
    s => Strtol(s)
  }

  /** The C library's `strtol` does read printed numbers back. */
  lemma {:induction false} StrtolReadsNumbers(isOid: string -> bool)
    ensures Lib(isOid, RealStrtol()).Ok() && ReadsNumbers(Lib(isOid, RealStrtol()))
  {
    forall n, rest | LONG_MIN <= n <= LONG_MAX && Follows(rest)
      ensures Strtol(PrintInt(n) + rest) == (n, |PrintInt(n)|)
    {
      StrtolPrinted(n, rest);
    }
  }

  /** A number too large for a long becomes the largest or smallest one. */
  lemma {:induction false} StrtolPrinted(n: int, rest: string)
    requires Follows(rest)
    ensures Strtol(PrintInt(n) + rest)
            == (if n > LONG_MAX then LONG_MAX else if n < LONG_MIN then LONG_MIN else n, |PrintInt(n)|)
  {
    var sign, size := if n < 0 then "-" else "", if n < 0 then -n else n;
    ScanPrinted("", sign, size, rest);
    assert PrintInt(n) == "" + sign + PrintDec(size);
    StrtolScanned(PrintInt(n) + rest, n, |PrintInt(n)|);
  }

  lemma {:induction false} StrtolScanned(s: string, n: int, end: nat)
    requires ScanDecimal(s) == Scan(n < 0, if n < 0 then -n else n, end)
    ensures Strtol(s) == (if n > LONG_MAX then LONG_MAX else if n < LONG_MIN then LONG_MIN else n, end)
  {
  }

  // ----- The code -----

  /** The argument text from a position to its terminator is still there. */
  ghost predicate HoldsFrom(arg: array<char>, text: string, ptr: nat)
    reads arg
  {
    ptr <= |text| < arg.Length && NoNul(text) && arg[ptr..|text|] == text[ptr..] && arg[|text|] == '\0'
  }

  /** The C string at a position. */
  method StringAt(arg: array<char>, ptr: nat, ghost text: string) returns (s: string)
    requires HoldsFrom(arg, text, ptr)
    ensures s == text[ptr..]
  {
    assert forall i :: ptr <= i < |text| ==> arg[i] == text[ptr..][i - ptr];
    var e := ptr;
    while arg[e] != '\0'
      invariant ptr <= e <= |text|
      decreases |text| - e
    {
      e := e + 1;
    }
    s := arg[ptr..e];
  }

  lemma {:induction false} HoldsLater(arg: array<char>, text: string, ptr: nat, later: nat)
    requires HoldsFrom(arg, text, ptr) && ptr <= later <= |text|
    ensures HoldsFrom(arg, text, later)
  {
    assert arg[later..|text|] == arg[ptr..|text|][later - ptr..];
  }

  /** Writing a terminator before a position leaves the text from there on. */
  method Terminate(arg: array<char>, at: nat, ghost text: string, ghost ptr: nat)
    requires at < ptr && HoldsFrom(arg, text, ptr)
    modifies arg
    ensures HoldsFrom(arg, text, ptr)
  {
    arg[at] := '\0';
  }

  /** After `int:`, the number scanned and the comma. */
  method ReadInt(lib: Lib, arg: array<char>, ptr: nat, s: string, ghost text: string) returns (r: Option<(Value, nat)>)
    requires lib.Ok() && HoldsFrom(arg, text, ptr) && s == text[ptr..] && HasWord(s, 'I', 'N', 'T')
    ensures r == From(ptr, ParseValue(lib, s))
    ensures r.Some? ==> HoldsFrom(arg, text, r.value.1)
  {
    var (n, end) := lib.strtol(s[4..]);
    if end == 0 { return None; }
    var e := 4 + end;
    if e < |s| {
      if s[e] != ',' { return None; }
      e := e + 1;
    }
    HoldsLater(arg, text, ptr, ptr + e);
    return Some((Int(n), ptr + e));
  }

  /** After `str:`, the text up to the comma, which is overwritten. */
  method ReadText(lib: Lib, arg: array<char>, ptr: nat, s: string, ghost text: string) returns (r: Option<(Value, nat)>)
    requires lib.Ok() && HoldsFrom(arg, text, ptr) && s == text[ptr..] && HasWord(s, 'S', 'T', 'R')
    modifies arg
    ensures r == From(ptr, ParseValue(lib, s))
    ensures r.Some? ==> HoldsFrom(arg, text, r.value.1)
  {
    var e := CharAt(s, ',', 4);
    var t := s[4..e];
    HoldsLater(arg, text, ptr, ptr + if e < |s| then e + 1 else e);
    if e < |s| {
      e := e + 1;
      Terminate(arg, ptr + e - 1, text, ptr + e);
    }
    return Some((Text(t), ptr + e));
  }

  /** The value of an item. */
  method ReadValue(lib: Lib, arg: array<char>, ptr: nat, ghost text: string) returns (r: Option<(Value, nat)>)
    requires lib.Ok() && HoldsFrom(arg, text, ptr)
    modifies arg
    ensures r == From(ptr, ParseValue(lib, text[ptr..]))
    ensures r.Some? ==> HoldsFrom(arg, text, r.value.1)
  {
    var s := StringAt(arg, ptr, text);
    if HasWord(s, 'I', 'N', 'T') {
      r := ReadInt(lib, arg, ptr, s, text);
    } else if HasWord(s, 'S', 'T', 'R') {
      r := ReadText(lib, arg, ptr, s, text);
    } else {
      r := None;
    }
  }

  /** The text before the colon, which is overwritten. */
  method ReadOid(arg: array<char>, ptr: nat, ghost text: string) returns (r: Option<(string, nat)>)
    requires HoldsFrom(arg, text, ptr)
    modifies arg
    ensures r == From(ptr, ParseOid(text[ptr..]))
    ensures r.Some? ==> HoldsFrom(arg, text, r.value.1)
  {
    var s := StringAt(arg, ptr, text);
    var p := SpaceEnd(s, 0);
    var c := CharAt(s, ':', p);
    if c == |s| { return None; }
    var next := ptr + c + 1;
    HoldsLater(arg, text, ptr, next);
    Terminate(arg, next - 1, text, next);
    return Some((s[p..c], next));
  }

  type OidReader = string -> Option<(string, nat)>

  ghost predicate ReadsOids(read: OidReader) {
    forall s {:trigger ParseOid(s)} :: read(s) == ParseOid(s)
  }

  ghost function ReaderOfOids(): (read: OidReader)
    ensures ReadsOids(read)
  {
    (s: string) => ParseOid(s)
  }

  /** An item is its OID and then its value. */
  ghost function ItemBy(isOid: string -> bool, oidOf: OidReader, valueOf: ValueReader, s: string): Option<(Item, nat)> {
    match oidOf(s)
    case None => None
    case Some((oid, n)) =>
      if n > |s| || !isOid(oid) then None
      else match valueOf(s[n..])
        case None => None
        case Some((value, taken)) => Some((Item(oid, value), n + taken))
  }

  lemma {:induction false} ItemByIs(lib: Lib, oidOf: OidReader, valueOf: ValueReader, s: string)
    requires lib.Ok() && ReadsOids(oidOf) && ReadsValues(lib, valueOf)
    ensures ParseItem(lib, s) == ItemBy(lib.isOid, oidOf, valueOf, s)
  {
    assert oidOf(s) == ParseOid(s);
    if ParseOid(s).Some? {
      var rest := s[ParseOid(s).value.1..];
      assert valueOf(rest) == ParseValue(lib, rest);
    }
  }

  method ReadOidBy(arg: array<char>, ptr: nat, ghost text: string, ghost oidOf: OidReader)
    returns (r: Option<(string, nat)>)
    requires HoldsFrom(arg, text, ptr) && ReadsOids(oidOf)
    modifies arg
    ensures r == From(ptr, oidOf(text[ptr..]))
    ensures r.Some? ==> HoldsFrom(arg, text, r.value.1)
  {
    r := ReadOid(arg, ptr, text);
    assert oidOf(text[ptr..]) == ParseOid(text[ptr..]);
  }

  method ReadValueBy(lib: Lib, arg: array<char>, ptr: nat, ghost text: string, ghost valueOf: ValueReader)
    returns (r: Option<(Value, nat)>)
    requires lib.Ok() && HoldsFrom(arg, text, ptr) && ReadsValues(lib, valueOf)
    modifies arg
    ensures r == From(ptr, valueOf(text[ptr..]))
    ensures r.Some? ==> HoldsFrom(arg, text, r.value.1)
  {
    r := ReadValue(lib, arg, ptr, text);
    assert valueOf(text[ptr..]) == ParseValue(lib, text[ptr..]);
  }

  /** One pass of the loop: white space, OID, colon, value. */
  method ReadItemBy(lib: Lib, arg: array<char>, ptr: nat, ghost text: string, ghost oidOf: OidReader,
                    ghost valueOf: ValueReader) returns (r: Option<(Item, nat)>)
    requires lib.Ok() && HoldsFrom(arg, text, ptr) && ReadsOids(oidOf) && ReadsValues(lib, valueOf)
    modifies arg
    ensures r == From(ptr, ItemBy(lib.isOid, oidOf, valueOf, text[ptr..]))
    ensures r.Some? ==> HoldsFrom(arg, text, r.value.1)
  {
    var oid := ReadOidBy(arg, ptr, text, oidOf);
    if oid.None? { return None; }
    var next := oid.value.1;
    assert text[ptr..][next - ptr..] == text[next..];
    if !lib.isOid(oid.value.0) { return None; }
    var value := ReadValueBy(lib, arg, next, text, valueOf);
    if value.None? { return None; }
    return Some((Item(oid.value.0, value.value.0), value.value.1));
  }

  method ReadItem(lib: Lib, arg: array<char>, ptr: nat, ghost text: string) returns (r: Option<(Item, nat)>)
    requires lib.Ok() && HoldsFrom(arg, text, ptr)
    modifies arg
    ensures r == From(ptr, ParseItem(lib, text[ptr..]))
    ensures r.Some? ==> HoldsFrom(arg, text, r.value.1)
  {
    r := ReadItemBy(lib, arg, ptr, text, ReaderOfOids(), ReaderOfValues(lib));
    ItemByIs(lib, ReaderOfOids(), ReaderOfValues(lib), text[ptr..]);
  }

  method ReadNext(lib: Lib, arg: array<char>, ptr: nat, ghost text: string, ghost read: Reader)
    returns (r: Option<(Item, nat)>)
    requires lib.Ok() && Reads(lib, read) && HoldsFrom(arg, text, ptr)
    modifies arg
    ensures r == From(ptr, read(text[ptr..]))
    ensures r.Some? ==> HoldsFrom(arg, text, r.value.1)
  {
    r := ReadItem(lib, arg, ptr, text);
    assert read(text[ptr..]) == ParseItem(lib, text[ptr..]);
  }

  lemma {:induction false} NextItem(read: Reader, text: string, start: nat, item: Item, end: nat, acc: seq<Item>)
    requires Progress(read) && start < end <= |text| && read(text[start..]) == Some((item, end - start))
    ensures Prepend(acc, ReadAll(read, text[start..]))
            == if end == |text| then Some(acc + [item]) else Prepend(acc + [item], ReadAll(read, text[end..]))
  {
    assert text[start..][end - start..] == text[end..];
    if end < |text| && ReadAll(read, text[end..]).Some? {
      var rest := ReadAll(read, text[end..]).value;
      assert acc + ([item] + rest) == acc + [item] + rest;
    }
  }

  lemma {:induction false} PrependNothing(items: Option<seq<Item>>)
    ensures Prepend([], items) == items
  {
    if items.Some? { assert [] + items.value == items.value; }
  }

  method AtEnd(arg: array<char>, ptr: nat, ghost text: string) returns (end: bool)
    requires HoldsFrom(arg, text, ptr)
    ensures end == (ptr == |text|)
  {
    assert ptr < |text| ==> arg[ptr] == arg[ptr..|text|][0];
    end := arg[ptr] == '\0';
  }

  /** The loop of `handle_opt_geninfo`: items until the text is used up. */
  method ReadItems(lib: Lib, arg: array<char>, ghost text: string, ghost read: Reader)
    returns (items: Option<seq<Item>>)
    requires lib.Ok() && Reads(lib, read) && HoldsFrom(arg, text, 0)
    modifies arg
    ensures items == ReadAll(read, text)
  {
    var ptr: nat, acc: seq<Item>, end := 0, [], false;
    assert text[0..] == text;
    PrependNothing(ReadAll(read, text));
    while !end
      invariant HoldsFrom(arg, text, ptr)
      invariant ReadAll(read, text) == if end then Some(acc) else Prepend(acc, ReadAll(read, text[ptr..]))
      decreases |text| - ptr, !end
    {
      var item := ReadNext(lib, arg, ptr, text, read);
      if item.None? { return None; }
      NextItem(read, text, ptr, item.value.0, item.value.1, acc);
      acc, ptr := acc + [item.value.0], item.value.1;
      end := AtEnd(arg, ptr, text);
    }
    return Some(acc);
  }

  /** `handle_opt_geninfo`. */
  method HandleGeninfo(lib: Lib, arg: array<char>, ghost text: string) returns (items: Option<seq<Item>>)
    requires lib.Ok() && HoldsFrom(arg, text, 0)
    modifies arg
    ensures items == Parse(lib, text)
  {
    items := ReadItems(lib, arg, text, ItemReader(lib));
  }
}
