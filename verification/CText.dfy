/** Text as the C programs see it: character classes, decimal printing, and the number
    scanners `strtoul` and `strtol` of the C standard (section 7.22.1.4), 64-bit `long`. */
module CText {

  const ULONG_MAX: nat := 0xFFFF_FFFF_FFFF_FFFF
  const LONG_MAX: nat := 0x7FFF_FFFF_FFFF_FFFF
  const LONG_MIN: int := -0x8000_0000_0000_0000

  datatype Option<+T> = None | Some(value: T)

  function Cut(s: string, n: nat): (t: string)
    ensures t <= s && |t| <= n && (|s| <= n ==> t == s)
  {
    if |s| <= n then s else s[..n]
  }

  function ToUpper(c: char): char {
    if 'a' <= c <= 'z' then c - 'a' + 'A' else c
  }

  function Upper(s: string): (t: string)
    ensures |t| == |s| && forall i :: 0 <= i < |s| ==> t[i] == ToUpper(s[i])
  {
    if s == "" then "" else Upper(s[..|s| - 1]) + [ToUpper(s[|s| - 1])]
  }

  /** The letters from a to z become those from A to Z, and nothing else changes. */
  lemma {:induction false} UpperLetters(c: char, i: nat)
    ensures i < 26 ==> ToUpper("abcdefghijklmnopqrstuvwxyz"[i]) == "ABCDEFGHIJKLMNOPQRSTUVWXYZ"[i]
    ensures ToUpper(c) == c <==> !(97 <= c as int <= 122)
  {
  }

  predicate EqualNoCase(a: string, b: string) {
    Upper(a) == Upper(b)
  }

  predicate IsSpace(c: char) {
    c == ' ' || '\t' <= c <= '\r'
  }

  predicate IsDigit(c: char) {
    '0' <= c <= '9'
  }

  function DigitChar(d: nat): (c: char)
    requires d < 10
    ensures IsDigit(c) && c as int - '0' as int == d
  {
    '0' + d as char
  }

  predicate AllDigits(s: string) {
    forall i :: 0 <= i < |s| ==> IsDigit(s[i])
  }

  function DecValue(s: string): nat
    requires AllDigits(s)
  {
    if s == "" then 0 else 10 * DecValue(s[..|s| - 1]) + (s[|s| - 1] as int - '0' as int)
  }

  /** What `%u` prints. */
  function PrintDec(n: nat): string {
    if n < 10 then [DigitChar(n)] else PrintDec(n / 10) + [DigitChar(n % 10)]
  }

  function SpaceEnd(s: string, i: nat): (j: nat)
    requires i <= |s|
    ensures i <= j <= |s|
    decreases |s| - i
  {
    if i < |s| && IsSpace(s[i]) then SpaceEnd(s, i + 1) else i
  }

  function DigitEnd(s: string, i: nat): (j: nat)
    requires i <= |s|
    ensures i <= j <= |s| && AllDigits(s[i..j])
    decreases |s| - i
  {
    if i < |s| && IsDigit(s[i]) then
      var j := DigitEnd(s, i + 1);
      assert s[i..j] == [s[i]] + s[i + 1..j];
      j
    else i
  }

  lemma {:induction false} DigitEndIs(s: string, i: nat, j: nat)
    requires i <= j <= |s| && AllDigits(s[i..j]) && (j < |s| ==> !IsDigit(s[j]))
    ensures DigitEnd(s, i) == j
    decreases j - i
  {
    if i < j {
      assert s[i] == s[i..j][0] && s[i + 1..j] == s[i..j][1..];
      DigitEndIs(s, i + 1, j);
    }
  }

  /** A scanned decimal number; `end` is 0 when no digits were found. */
  datatype Scan = Scan(negative: bool, magnitude: nat, end: nat)

  function ScanDecimal(s: string): (r: Scan)
    ensures r.end <= |s|
  {
    var i := SpaceEnd(s, 0);
    var signed := i < |s| && (s[i] == '+' || s[i] == '-');
    var k := if signed then i + 1 else i;
    var e := DigitEnd(s, k);
    if e == k then Scan(false, 0, 0) else Scan(signed && s[i] == '-', DecValue(s[k..e]), e)
  }

  function Strtoul(s: string): (r: (nat, nat))
    ensures r.1 <= |s|
  {
    var n := ScanDecimal(s);
    (if n.magnitude > ULONG_MAX then ULONG_MAX
     else if n.negative && n.magnitude > 0 then ULONG_MAX + 1 - n.magnitude
     else n.magnitude, n.end)
  }

  function Strtol(s: string): (r: (int, nat))
    ensures r.1 <= |s|
  {
    var n := ScanDecimal(s);
    (if n.negative then (if 0 - n.magnitude < LONG_MIN then LONG_MIN else 0 - n.magnitude)
     else (if n.magnitude > LONG_MAX then LONG_MAX else n.magnitude), n.end)
  }

  lemma {:induction false} PrintDecDigits(n: nat)
    ensures |PrintDec(n)| > 0 && AllDigits(PrintDec(n)) && DecValue(PrintDec(n)) == n
  {
    if n >= 10 {
      PrintDecDigits(n / 10);
      assert PrintDec(n)[..|PrintDec(n)| - 1] == PrintDec(n / 10);
    }
  }

  function Pow10(k: nat): nat {
    if k == 0 then 1 else 10 * Pow10(k - 1)
  }

  /** A number prints in at most k digits exactly when it is below 10^k. */
  lemma {:induction false} PrintDecLength(n: nat, k: nat)
    requires k > 0
    ensures |PrintDec(n)| <= k <==> n < Pow10(k)
  {
    if n >= 10 {
      if k == 1 {
        PrintDecDigits(n / 10);
      } else {
        PrintDecLength(n / 10, k - 1);
      }
    } else {
      Pow10AtLeast(k);
    }
  }

  lemma {:induction false} Pow10AtLeast(k: nat)
    requires k > 0
    ensures Pow10(k) >= 10
  {
    if k > 1 { Pow10AtLeast(k - 1); }
  }

  /** The white space of the C locale: blank, tab, line feed, vertical tab, form feed and return. */
  lemma {:induction false} SpacesAre(c: char)
    ensures IsSpace(c) <==> c as int in {32, 9, 10, 11, 12, 13}
  {
  }

  predicate AllSpaces(s: string) {
    forall i :: 0 <= i < |s| ==> IsSpace(s[i])
  }

  lemma {:induction false} SpaceEndIs(s: string, i: nat, j: nat)
    requires i <= j <= |s| && AllSpaces(s[i..j]) && (j < |s| ==> !IsSpace(s[j]))
    ensures SpaceEnd(s, i) == j
    decreases j - i
  {
    if i < j {
      assert s[i] == s[i..j][0] && s[i + 1..j] == s[i..j][1..];
      SpaceEndIs(s, i + 1, j);
    }
  }

  predicate IsSign(s: string) {
    s == "" || s == "+" || s == "-"
  }

  /** White space and a sign in front of a text that starts with neither are skipped. */
  lemma {:induction false} ScanAfter(space: string, sign: string, text: string)
    requires AllSpaces(space) && IsSign(sign)
    requires text != "" ==> !IsSpace(text[0]) && text[0] != '+' && text[0] != '-'
    ensures var s, k := space + sign + text, |space| + |sign|;
            ScanDecimal(s) == if DigitEnd(s, k) == k then Scan(false, 0, 0)
                              else Scan(sign == "-", DecValue(s[k..DigitEnd(s, k)]), DigitEnd(s, k))
  {
    var s := space + sign + text;
    assert s[0..|space|] == space;
    SpaceEndIs(s, 0, |space|);
  }

  /** Scanning a printed number, after any white space and with or without a sign, gives the number
      back and stops right after it. */
  lemma {:induction false} ScanPrinted(space: string, sign: string, n: nat, rest: string)
    requires AllSpaces(space) && IsSign(sign) && (rest == "" || !IsDigit(rest[0]))
    ensures var text := space + sign + PrintDec(n);
            ScanDecimal(text + rest) == Scan(sign == "-", n, |text|)
  {
    PrintDecDigits(n);
    var k, digits := |space| + |sign|, PrintDec(n);
    var s := space + sign + (digits + rest);
    assert s == space + sign + digits + rest;
    assert s[k..k + |digits|] == digits;
    DigitEndIs(s, k, k + |digits|);
    ScanAfter(space, sign, digits + rest);
  }

  /** Without a digit nothing is scanned, whatever is in front. */
  lemma {:induction false} NothingScanned(space: string, sign: string, rest: string)
    requires AllSpaces(space) && IsSign(sign)
    requires rest != "" ==> !IsDigit(rest[0]) && !IsSpace(rest[0]) && rest[0] != '+' && rest[0] != '-'
    ensures ScanDecimal(space + sign + rest) == Scan(false, 0, 0)
  {
    ScanAfter(space, sign, rest);
  }

  /** `strtoul` reads a printed number back, or the largest there is. */
  lemma {:induction false} StrtoulSaturates(n: nat, rest: string)
    requires rest == "" || !IsDigit(rest[0])
    ensures Strtoul(PrintDec(n) + rest) == (if n <= ULONG_MAX then n else ULONG_MAX, |PrintDec(n)|)
  {
    ScanPrinted("", "", n, rest);
    assert "" + "" + PrintDec(n) == PrintDec(n);
  }

  /** After a minus `strtoul` wraps around. */
  lemma {:induction false} StrtoulWraps(n: nat, rest: string)
    requires 0 < n <= ULONG_MAX && (rest == "" || !IsDigit(rest[0]))
    ensures Strtoul("-" + PrintDec(n) + rest) == (ULONG_MAX + 1 - n, 1 + |PrintDec(n)|)
  {
    ScanPrinted("", "-", n, rest);
    assert "" + "-" == "-";
    WrapsScanned("-" + PrintDec(n) + rest, n, 1 + |PrintDec(n)|);
  }

  lemma {:induction false} WrapsScanned(s: string, n: nat, end: nat)
    requires 0 < n <= ULONG_MAX && ScanDecimal(s) == Scan(true, n, end)
    ensures Strtoul(s) == (ULONG_MAX + 1 - n, end)
  {
  }

  // ----- Searching -----

  /** `strchr` from a position: the first place of the character, or the end. */
  function CharAt(s: string, c: char, i: nat): (j: nat)
    requires i <= |s|
    ensures i <= j <= |s|
    decreases |s| - i
  {
    if i < |s| && s[i] != c then CharAt(s, c, i + 1) else i
  }

  predicate Lacks(s: string, c: char) {
    forall i :: 0 <= i < |s| ==> s[i] != c
  }

  lemma {:induction false} CharAtIs(s: string, c: char, i: nat, j: nat)
    requires i <= j <= |s| && Lacks(s[i..j], c) && (j < |s| ==> s[j] == c)
    ensures CharAt(s, c, i) == j
    decreases j - i
  {
    if i < j {
      assert s[i] == s[i..j][0] && s[i + 1..j] == s[i..j][1..];
      CharAtIs(s, c, i + 1, j);
    }
  }

  // ----- Fixed buffers -----

  lemma {:induction false} ConcatAssoc(a: string, b: string, c: string)
    ensures a + b + c == a + (b + c)
  {
  }

  predicate NoNul(s: string) {
    forall i :: 0 <= i < |s| ==> s[i] != '\0'
  }

  /** The buffer holds a terminated string. */
  ghost predicate Holds(buf: array<char>, text: string)
    reads buf
  {
    |text| < buf.Length && buf[..|text|] == text && buf[|text|] == '\0' && NoNul(text)
  }

  /** `OPENSSL_strlcat` over the whole buffer: append, truncating to what fits. */
  method Strlcat(buf: array<char>, ghost text: string, src: string)
    requires Holds(buf, text) && NoNul(src)
    modifies buf
    ensures Holds(buf, text + Cut(src, buf.Length - 1 - |text|))
  {
    assert forall i :: 0 <= i < |text| ==> buf[i] == text[i];
    var dst := 0;
    while buf[dst] != '\0'
      invariant 0 <= dst <= |text|
      decreases |text| - dst
    {
      dst := dst + 1;
    }
    var i := 0;
    while dst + i + 1 < buf.Length && i < |src|
      invariant 0 <= i <= |src| && dst + i < buf.Length
      invariant buf[..dst + i] == text + src[..i]
    {
      buf[dst + i] := src[i];
      i := i + 1;
    }
    buf[dst + i] := '\0';
    assert src[..i] == Cut(src, buf.Length - 1 - |text|);
  }
}
