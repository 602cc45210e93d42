/** Certificate serial numbers as hexadecimal text: how the database prints them, how its
    serial index compares them, and how the load check, the CRL, the OCSP responder and the
    status query read them. */
module CaSerial {
  import opened CText

  predicate IsUpperHex(c: char) {
    '0' <= c <= '9' || 'A' <= c <= 'F'
  }

  predicate IsLowerHex(c: char) {
    'a' <= c <= 'f'
  }

  predicate AllHex(s: string) {
    forall i :: 0 <= i < |s| ==> IsUpperHex(s[i]) || IsLowerHex(s[i])
  }

  predicate AllUpperHex(s: string) {
    forall i :: 0 <= i < |s| ==> IsUpperHex(s[i])
  }

  function DigitValue(c: char): (v: nat)
    requires IsUpperHex(c) || IsLowerHex(c)
    ensures v < 16
  {
    if c <= '9' then c as int - '0' as int
    else if c <= 'F' then c as int - 'A' as int + 10
    else c as int - 'a' as int + 10
  }

  function HexDigit(d: nat): (c: char)
    requires d < 16
    ensures IsUpperHex(c) && DigitValue(c) == d
  {
    if d < 10 then '0' + d as char else 'A' + (d - 10) as char
  }

  function HexValue(s: string): nat
    requires AllHex(s)
  {
    if s == "" then 0 else 16 * HexValue(s[..|s| - 1]) + DigitValue(s[|s| - 1])
  }

  /** Two upper-case digits per byte, no leading zero byte. */
  function BytesHex(n: nat): string {
    if n == 0 then "" else BytesHex(n / 256) + [HexDigit(n / 16 % 16), HexDigit(n % 16)]
  }

  /** `BN_bn2hex`. */
  function BnToHex(v: int): string {
    if v == 0 then "0" else if v < 0 then "-" + BytesHex(-v) else BytesHex(v)
  }

  /** A serial number as it is stored in, and looked up from, the database. */
  function RowSerial(v: int): string {
    if v == 0 then "00" else BnToHex(v)
  }

  predicate IsNegative(s: string) {
    "-" <= s
  }

  function DigitsOf(s: string): string {
    if IsNegative(s) then s[1..] else s
  }

  /** The check made on every row when the database is loaded. */
  predicate ValidSerial(s: string) {
    |DigitsOf(s)| % 2 == 0 && |DigitsOf(s)| >= 2 && AllHex(DigitsOf(s))
  }

  method CheckSerial(s: string) returns (ok: bool)
    ensures ok <==> ValidSerial(s)
  {
    var p, j := 0, |s|;
    if j > 0 && s[0] == '-' {
      p, j := 1, j - 1;
    }
    ghost var start := p;
    assert s[start..] == DigitsOf(s);
    if j % 2 == 1 || j < 2 { return false; }
    while p < |s|
      invariant start <= p <= |s|
      invariant forall i :: start <= i < p ==> IsUpperHex(s[i]) || IsLowerHex(s[i])
    {
      if !IsUpperHex(s[p]) && !IsLowerHex(s[p]) {
        assert s[p] == DigitsOf(s)[p - start];
        return false;
      }
      p := p + 1;
    }
    return true;
  }

  /** `BN_hex2bn` of a checked serial. */
  function SerialValue(s: string): int
    requires ValidSerial(s)
  {
    if IsNegative(s) then 0 - HexValue(s[1..]) else HexValue(s)
  }

  function Strip(s: string): (t: string)
    ensures t == "" || t[0] != '0'
  {
    if s != "" && s[0] == '0' then Strip(s[1..]) else s
  }

  /** `index_serial_cmp` finds the two serials equal. */
  predicate SameSerial(a: string, b: string) {
    Strip(a) == Strip(b)
  }

  predicate ZeroByteFirst(s: string) {
    |s| >= 2 && s[0] == '0' && s[1] == '0'
  }

  /** The serial is written as the database itself would write it, up to leading zeros of a
      non-negative number: no lower-case digit, no negative number with a zero byte first. */
  predicate WellPrinted(s: string) {
    AllUpperHex(DigitsOf(s)) && !(IsNegative(s) && ZeroByteFirst(s[1..]))
  }

  // ----- Values and their digits -----

  lemma {:induction false} ZeroInFront(s: string)
    requires AllHex(s)
    ensures AllHex("0" + s) && HexValue("0" + s) == HexValue(s)
  {
    if s == "" {
      assert HexValue("0") == 0;
    } else {
      var front := s[..|s| - 1];
      ZeroInFront(front);
      assert ("0" + s)[..|s|] == "0" + front;
    }
  }

  lemma {:induction false} StripKeepsValue(s: string)
    requires AllHex(s)
    ensures AllHex(Strip(s)) && HexValue(Strip(s)) == HexValue(s)
  {
    if s != "" && s[0] == '0' {
      StripKeepsValue(s[1..]);
      ZeroInFront(s[1..]);
      assert s == "0" + s[1..];
    }
  }

  lemma {:induction false} StripUpper(s: string)
    ensures AllUpperHex(Strip(s)) <==> AllUpperHex(s)
  {
    if s != "" && s[0] == '0' {
      StripUpper(s[1..]);
      assert s == "0" + s[1..];
    }
  }

  lemma {:induction false} PositiveValue(s: string)
    requires AllHex(s) && s != "" && s[0] != '0'
    ensures HexValue(s) > 0
  {
    if |s| > 1 { PositiveValue(s[..|s| - 1]); }
  }

  /** Upper-case numerals without leading zeros are unique. */
  lemma {:induction false} UpperHexUnique(a: string, b: string)
    requires AllUpperHex(a) && AllUpperHex(b) && HexValue(a) == HexValue(b)
    requires (a == "" || a[0] != '0') && (b == "" || b[0] != '0')
    ensures a == b
  {
    if a == "" {
      if b != "" { PositiveValue(b); }
    } else if b == "" {
      PositiveValue(a);
    } else {
      var a', b' := a[..|a| - 1], b[..|b| - 1];
      UpperHexUnique(a', b');
      assert a == a' + [a[|a| - 1]] && b == b' + [b[|b| - 1]];
    }
  }

  /** For non-negative upper-case text the index compares by value. */
  lemma {:induction false} StripComparesValues(a: string, b: string)
    requires AllUpperHex(a) && AllUpperHex(b)
    ensures SameSerial(a, b) <==> HexValue(a) == HexValue(b)
  {
    StripKeepsValue(a);
    StripKeepsValue(b);
    StripUpper(a);
    StripUpper(b);
    if HexValue(a) == HexValue(b) { UpperHexUnique(Strip(a), Strip(b)); }
  }

  lemma {:induction false} TwoDigitsMore(front: string, hi: char, lo: char)
    requires AllUpperHex(front) && IsUpperHex(hi) && IsUpperHex(lo)
    ensures AllUpperHex(front + [hi, lo])
    ensures HexValue(front + [hi, lo]) == 256 * HexValue(front) + 16 * DigitValue(hi) + DigitValue(lo)
  {
    var s := front + [hi, lo];
    assert s[..|s| - 1] == front + [hi];
    assert (front + [hi])[..|front|] == front;
  }

  lemma {:induction false} ByteSplit(n: nat)
    ensures n == 256 * (n / 256) + 16 * (n / 16 % 16) + n % 16
  {
    assert n / 256 == n / 16 / 16;
  }

  lemma {:induction false} BytesHexValue(n: nat)
    ensures AllUpperHex(BytesHex(n)) && HexValue(BytesHex(n)) == n
    ensures |BytesHex(n)| % 2 == 0
  {
    if n > 0 {
      BytesHexValue(n / 256);
      TwoDigitsMore(BytesHex(n / 256), HexDigit(n / 16 % 16), HexDigit(n % 16));
      ByteSplit(n);
    }
  }

  lemma {:induction false} BytesHexFirst(n: nat)
    requires n > 0
    ensures |BytesHex(n)| >= 2 && !ZeroByteFirst(BytesHex(n))
  {
    if n / 256 > 0 {
      BytesHexFirst(n / 256);
    } else {
      assert BytesHex(n) == [HexDigit(n / 16 % 16), HexDigit(n % 16)];
      ByteSplit(n);
    }
  }

  /** What is stored passes the load check and reads back as the number. */
  lemma {:induction false} RowSerialReads(v: int)
    ensures ValidSerial(RowSerial(v)) && SerialValue(RowSerial(v)) == v && WellPrinted(RowSerial(v))
    ensures IsNegative(RowSerial(v)) <==> v < 0
  {
    if v == 0 {
      TwoDigitsMore("", '0', '0');
      assert "" + ['0', '0'] == "00";
    } else {
      var n := if v < 0 then -v else v;
      BytesHexValue(n);
      BytesHexFirst(n);
      assert ("-" + BytesHex(n))[1..] == BytesHex(n);
    }
  }

  /** Equal in the index means equal as numbers. */
  lemma {:induction false} SameSerialSameValue(a: string, b: string)
    requires ValidSerial(a) && ValidSerial(b) && SameSerial(a, b)
    ensures SerialValue(a) == SerialValue(b)
  {
    if IsNegative(a) {
      assert Strip(a) == a && a[0] == '-';
      NegativeStrip(b);
    } else if IsNegative(b) {
      assert Strip(b) == b && b[0] == '-';
      NegativeStrip(a);
    } else {
      StripKeepsValue(a);
      StripKeepsValue(b);
    }
  }

  lemma {:induction false} NegativeStrip(s: string)
    requires ValidSerial(s) && Strip(s) != "" && Strip(s)[0] == '-'
    ensures IsNegative(s) && Strip(s) == s
  {
    if !IsNegative(s) { StripKeepsValue(s); }
  }

  lemma {:induction false} StripOnce(s: string)
    requires !ZeroByteFirst(s)
    ensures s == Strip(s) || s == "0" + Strip(s)
  {
    if s != "" && s[0] == '0' { assert Strip(s[1..]) == s[1..]; }
  }

  lemma {:induction false} StripParity(a: string, b: string)
    requires SameSerial(a, b) && |a| % 2 == |b| % 2 && !ZeroByteFirst(a) && !ZeroByteFirst(b)
    ensures a == b
  {
    StripOnce(a);
    StripOnce(b);
    var n := |Strip(a)|;
    assert n % 2 != (n + 1) % 2;
  }

  /** A checked serial is found under its own number exactly when it is well printed. */
  lemma {:induction false} FoundUnderItsNumber(s: string)
    requires ValidSerial(s)
    ensures SameSerial(RowSerial(SerialValue(s)), s) <==> WellPrinted(s)
  {
    var v := SerialValue(s);
    RowSerialReads(v);
    if IsNegative(s) {
      NegativeFound(s);
    } else if AllUpperHex(s) {
      StripComparesValues(RowSerial(v), s);
    } else {
      StripUpper(s);
      StripUpper(RowSerial(v));
    }
  }

  lemma {:induction false} NegativeFound(s: string)
    requires ValidSerial(s) && IsNegative(s)
    ensures SameSerial(RowSerial(SerialValue(s)), s) <==> WellPrinted(s)
  {
    var p, r := s[1..], RowSerial(SerialValue(s));
    assert s == "-" + p;
    if HexValue(p) == 0 {
      ZeroValue(p);
      assert Strip(r) == Strip("0") == "";
      assert Strip(s) == s;
    } else {
      var x := BytesHex(HexValue(p));
      calc <==> {
        SameSerial(r, s);
        { assert r == "-" + x; }
        SameSerial("-" + x, "-" + p);
        { NegativeSame(x, p); }
        x == p;
        { NegativeDigits(p); }
        AllUpperHex(p) && !ZeroByteFirst(p);
      }
    }
  }

  lemma {:induction false} NegativeSame(a: string, b: string)
    ensures SameSerial("-" + a, "-" + b) <==> a == b
  {
    assert ("-" + a)[1..] == a && ("-" + b)[1..] == b;
  }

  lemma {:induction false} ZeroValue(p: string)
    requires AllHex(p) && |p| >= 2 && HexValue(p) == 0
    ensures ZeroByteFirst(p)
  {
    StripKeepsValue(p);
    if Strip(p) != "" { PositiveValue(Strip(p)); }
  }

  lemma {:induction false} NegativeDigits(p: string)
    requires AllHex(p) && |p| % 2 == 0 && HexValue(p) > 0
    ensures BytesHex(HexValue(p)) == p <==> AllUpperHex(p) && !ZeroByteFirst(p)
  {
    var n := HexValue(p);
    BytesHexValue(n);
    BytesHexFirst(n);
    if AllUpperHex(p) && !ZeroByteFirst(p) {
      StripComparesValues(BytesHex(n), p);
      StripParity(BytesHex(n), p);
    }
  }

  // ----- The status query -----

  /** The key `get_certificate_status` builds: padded to even length, in upper case. */
  function StatusKey(query: string): string {
    Upper(if |query| % 2 == 1 then "0" + query else query)
  }

  lemma {:induction false} UpperKeepsValue(s: string)
    requires AllHex(s)
    ensures AllUpperHex(Upper(s)) && HexValue(Upper(s)) == HexValue(s)
  {
    if s != "" {
      UpperKeepsValue(s[..|s| - 1]);
      assert Upper(s)[..|s| - 1] == Upper(s[..|s| - 1]);
    }
  }

  /** The status query matches a stored serial for hexadecimal text of any case and any
      number of leading zeros. */
  lemma {:induction false} StatusKeyMatches(query: string, v: nat)
    requires AllHex(query)
    ensures SameSerial(StatusKey(query), RowSerial(v)) <==> HexValue(query) == v
  {
    var padded := if |query| % 2 == 1 then "0" + query else query;
    ZeroInFront(query);
    UpperKeepsValue(padded);
    RowSerialReads(v);
    StripComparesValues(StatusKey(query), RowSerial(v));
  }
}
