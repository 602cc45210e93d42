/** The final encoding of `md5crypt` and `shacrypt`: a byte permutation and a packing of
    24-bit groups into characters, six bits at a time, low bits first. Masks and shifts of
    non-negative numbers are written as remainders and quotients. */
module CryptEncoding {
  import opened ShaCryptDigest

  /** The table `cov_2char`: entry i, by its three runs of characters. */
  function Cov(i: nat): (c: char)
    requires i < 64
    ensures SextetOf(c) == i && '.' <= c
  {
    if i < 12 then '.' + i as char else if i < 38 then 'A' + (i - 12) as char else 'a' + (i - 38) as char
  }

  function SextetOf(c: char): int {
    if c <= '9' then c as int - '.' as int
    else if c <= 'Z' then c as int - 'A' as int + 12
    else c as int - 'a' as int + 38
  }

  /** The runs are those of the literal table. */
  lemma {:induction false} CovMatchesTable(i: nat)
    ensures i < 12 ==> "./0123456789"[i] == Cov(i)
    ensures i < 26 ==> "ABCDEFGHIJKLMNOPQRSTUVWXYZ"[i] == Cov(i + 12)
    ensures i < 26 ==> "abcdefghijklmnopqrstuvwxyz"[i] == Cov(i + 38)
  {
  }

  /** The n characters that `b64_from_24bit` writes for the word w. */
  function Sextets(w: nat, n: nat): (s: string)
    ensures |s| == n
    ensures forall i :: 0 <= i < n ==> '.' <= s[i]
  {
    if n == 0 then "" else [Cov(w % 64)] + Sextets(w / 64, n - 1)
  }

  /** One call of the macro: three byte positions (-1 for a literal zero byte) and the
      number of characters to write. */
  datatype Group = Group(b2: int, b1: int, b0: int, n: nat) {
    predicate Fits(size: nat) {
      b2 < size && b1 < size && 0 <= b0 < size
      && (n == 4 || (n == 3 && b2 < 0) || (n == 2 && b2 < 0 && b1 < 0))
    }

    predicate Uses(p: nat) {
      b2 == p || b1 == p || b0 == p
    }
  }

  predicate AllFit(groups: seq<Group>, size: nat) {
    forall j :: 0 <= j < |groups| ==> groups[j].Fits(size)
  }

  ghost predicate Used(groups: seq<Group>, p: nat) {
    exists j :: 0 <= j < |groups| && groups[j].Uses(p)
  }

  /** Every byte position is used by some group. */
  ghost predicate Covers(groups: seq<Group>, size: nat) {
    forall p :: 0 <= p < size ==> Used(groups, p)
  }

  const SHA256_GROUPS: seq<Group> := [
    Group(0, 10, 20, 4), Group(21, 1, 11, 4), Group(12, 22, 2, 4), Group(3, 13, 23, 4),
    Group(24, 4, 14, 4), Group(15, 25, 5, 4), Group(6, 16, 26, 4), Group(27, 7, 17, 4),
    Group(18, 28, 8, 4), Group(9, 19, 29, 4), Group(-1, 31, 30, 3)]

  const SHA512_LOW: seq<Group> := [
    Group(0, 21, 42, 4), Group(22, 43, 1, 4), Group(44, 2, 23, 4), Group(3, 24, 45, 4),
    Group(25, 46, 4, 4), Group(47, 5, 26, 4), Group(6, 27, 48, 4), Group(28, 49, 7, 4),
    Group(50, 8, 29, 4), Group(9, 30, 51, 4), Group(31, 52, 10, 4), Group(53, 11, 32, 4)]

  const SHA512_HIGH: seq<Group> := [
    Group(12, 33, 54, 4), Group(34, 55, 13, 4), Group(56, 14, 35, 4), Group(15, 36, 57, 4),
    Group(37, 58, 16, 4), Group(59, 17, 38, 4), Group(18, 39, 60, 4), Group(40, 61, 19, 4),
    Group(62, 20, 41, 4), Group(-1, -1, 63, 2)]

  const SHA512_GROUPS: seq<Group> := SHA512_LOW + SHA512_HIGH

  /** The groups of the hand-unrolled MD5 output, over the permuted buffer. */
  const MD5_GROUPS: seq<Group> := [
    Group(0, 1, 2, 4), Group(3, 4, 5, 4), Group(6, 7, 8, 4), Group(9, 10, 11, 4),
    Group(12, 13, 14, 4), Group(-1, -1, 15, 2)]

  function ByteAt(buf: Bytes, i: int): (b: nat)
    requires i < |buf|
    ensures b < 256
  {
    if i < 0 then 0 else buf[i] as int
  }

  function Word(buf: Bytes, g: Group): nat
    requires g.Fits(|buf|)
  {
    ByteAt(buf, g.b2) * 65536 + ByteAt(buf, g.b1) * 256 + ByteAt(buf, g.b0)
  }

  function Encode(buf: Bytes, groups: seq<Group>): string
    requires AllFit(groups, |buf|)
  {
    if groups == [] then "" else
      var last := |groups| - 1;
      Encode(buf, groups[..last]) + Sextets(Word(buf, groups[last]), groups[last].n)
  }

  // ----- Injectivity -----

  lemma {:induction false} SextetsInjective(w: nat, w': nat, n: nat)
    requires Sextets(w, n) == Sextets(w', n)
    requires n <= 4 && w < Pow2(6 * n) && w' < Pow2(6 * n)
    ensures w == w'
  {
    if n > 0 {
      var s, s' := Sextets(w, n), Sextets(w', n);
      assert s[0] == s'[0] && s[1..] == Sextets(w / 64, n - 1) && s'[1..] == Sextets(w' / 64, n - 1);
      assert Pow2(6 * n) == 64 * Pow2(6 * (n - 1)) by { SixPow2(6 * (n - 1)); }
      SextetsInjective(w / 64, w' / 64, n - 1);
    }
  }

  lemma {:induction false} SixPow2(i: nat)
    ensures Pow2(i + 6) == 64 * Pow2(i)
  {
    assert Pow2(i + 6) == 2 * Pow2(i + 5) && Pow2(i + 4) == 2 * Pow2(i + 3) && Pow2(i + 2) == 2 * Pow2(i + 1);
  }

  lemma {:induction false} WordInjective(a: Bytes, b: Bytes, g: Group)
    requires |a| == |b| && g.Fits(|a|)
    requires Sextets(Word(a, g), g.n) == Sextets(Word(b, g), g.n)
    ensures ByteAt(a, g.b2) == ByteAt(b, g.b2) && ByteAt(a, g.b1) == ByteAt(b, g.b1)
            && ByteAt(a, g.b0) == ByteAt(b, g.b0)
  {
    Pow2Values();
    SextetsInjective(Word(a, g), Word(b, g), g.n);
  }

  lemma {:induction false} Pow2Values()
    ensures Pow2(12) == 4096 && Pow2(18) == 262144 && Pow2(24) == 16777216
  {
    assert Pow2(0) == 1;
    SixPow2(0);
    SixPow2(6);
    SixPow2(12);
    SixPow2(18);
  }

  lemma {:induction false} EncodeLength(a: Bytes, b: Bytes, groups: seq<Group>)
    requires |a| == |b| && AllFit(groups, |a|)
    ensures |Encode(a, groups)| == |Encode(b, groups)|
  {
    if groups != [] { EncodeLength(a, b, groups[..|groups| - 1]); }
  }

  /** The characters of one group. */
  function Code(buf: Bytes, g: Group): string
    requires g.Fits(|buf|)
  {
    Sextets(Word(buf, g), g.n)
  }

  lemma {:induction false} EncodeLast(a: Bytes, b: Bytes, front: seq<Group>, g: Group)
    requires |a| == |b| && AllFit(front, |a|) && g.Fits(|a|)
    requires Encode(a, front) + Code(a, g) == Encode(b, front) + Code(b, g)
    ensures Encode(a, front) == Encode(b, front) && Code(a, g) == Code(b, g)
  {
    EncodeLength(a, b, front);
    ConcatSplit(Encode(a, front), Code(a, g), Encode(b, front), Code(b, g));
  }

  lemma {:induction false} EncodeDeterminesGroup(a: Bytes, b: Bytes, groups: seq<Group>, j: nat)
    requires |a| == |b| && AllFit(groups, |a|) && j < |groups|
    requires Encode(a, groups) == Encode(b, groups)
    ensures Code(a, groups[j]) == Code(b, groups[j])
  {
    var last := |groups| - 1;
    EncodeLast(a, b, groups[..last], groups[last]);
    if j < last { EncodeDeterminesGroup(a, b, groups[..last], j); }
  }

  lemma {:induction false} ConcatSplit(a: string, a': string, b: string, b': string)
    requires |a| == |b| && a + a' == b + b'
    ensures a == b && a' == b'
  {
    assert a == (a + a')[..|a|] && b == (b + b')[..|a|];
    assert a' == (a + a')[|a|..] && b' == (b + b')[|a|..];
  }

  /** A digest is recoverable from its encoding when the groups use every byte. */
  lemma {:induction false} EncodeInjective(a: Bytes, b: Bytes, groups: seq<Group>)
    requires |a| == |b| && AllFit(groups, |a|) && Covers(groups, |a|)
    requires Encode(a, groups) == Encode(b, groups)
    ensures a == b
  {
    forall p: nat | p < |a|
      ensures a[p] == b[p]
    {
      assert Used(groups, p);
      var j :| 0 <= j < |groups| && groups[j].Uses(p);
      EncodeDeterminesByte(a, b, groups, j, p);
    }
  }

  lemma {:induction false} EncodeDeterminesByte(a: Bytes, b: Bytes, groups: seq<Group>, j: nat, p: nat)
    requires |a| == |b| && AllFit(groups, |a|) && p < |a| && j < |groups| && groups[j].Uses(p)
    requires Encode(a, groups) == Encode(b, groups)
    ensures a[p] == b[p]
  {
    EncodeDeterminesGroup(a, b, groups, j);
    WordInjective(a, b, groups[j]);
    assert ByteAt(a, p) == ByteAt(b, p);
  }

  /** The byte positions of every macro call for SHA-256: they go up by 10 from the row's number, and
      the order turns by one place from row to row. */
  lemma {:induction false} Sha256Order(j: nat)
    requires j <= 10
    ensures |SHA256_GROUPS| == 11
    ensures var t := 2 * j;
            SHA256_GROUPS[j] == if j == 10 then Group(-1, 31, 30, 3)
                                else Group(j + 10 * (t % 3), j + 10 * ((t + 1) % 3), j + 10 * ((t + 2) % 3), 4)
  {
  }

  /** For SHA-512 they go up by 21, and the order turns the other way. */
  lemma {:induction false} Sha512Order(j: nat)
    requires j <= 21
    ensures |SHA512_GROUPS| == 22
    ensures SHA512_GROUPS[j] == if j == 21 then Group(-1, -1, 63, 2)
                                else Group(j + 21 * (j % 3), j + 21 * ((j + 1) % 3), j + 21 * ((j + 2) % 3), 4)
  {
    if j < 12 { Sha512LowOrder(j); } else { Sha512HighOrder(j - 12); }
  }

  lemma {:induction false} Sha512LowOrder(j: nat)
    requires j < 12
    ensures SHA512_LOW[j] == Group(j + 21 * (j % 3), j + 21 * ((j + 1) % 3), j + 21 * ((j + 2) % 3), 4)
  {
  }

  lemma {:induction false} Sha512HighOrder(i: nat)
    requires i < 10
    ensures var j := i + 12;
            SHA512_HIGH[i] == if i == 9 then Group(-1, -1, 63, 2)
                              else Group(j + 21 * (j % 3), j + 21 * ((j + 1) % 3), j + 21 * ((j + 2) % 3), 4)
  {
  }

  /** For MD5 the permuted bytes are taken three at a time. */
  lemma {:induction false} Md5Order(j: nat)
    requires j <= 5
    ensures |MD5_GROUPS| == 6
    ensures MD5_GROUPS[j] == if j == 5 then Group(-1, -1, 15, 2) else Group(3 * j, 3 * j + 1, 3 * j + 2, 4)
  {
  }

  lemma {:induction false} Sha256GroupsCover()
    ensures AllFit(SHA256_GROUPS, 32) && Covers(SHA256_GROUPS, 32)
  {
    forall p | 0 <= p < 32
      ensures Used(SHA256_GROUPS, p)
    {
      var j := if p < 30 then p % 10 else 10;
      Sha256Order(j);
      assert SHA256_GROUPS[j].Uses(p);
    }
  }

  lemma {:induction false} Sha512GroupsCover()
    ensures AllFit(SHA512_GROUPS, 64) && Covers(SHA512_GROUPS, 64)
  {
    forall p | 0 <= p < 64
      ensures Used(SHA512_GROUPS, p)
    {
      Sha512Uses(p);
      assert SHA512_GROUPS[if p < 63 then p % 21 else 21].Uses(p);
    }
  }

  lemma {:induction false} Sha512Uses(p: nat)
    requires p < 64
    ensures |SHA512_GROUPS| == 22 && SHA512_GROUPS[if p < 63 then p % 21 else 21].Uses(p)
  {
    Sha512Order(if p < 63 then p % 21 else 21);
  }

  lemma {:induction false} Md5GroupsCover()
    ensures AllFit(MD5_GROUPS, 16) && Covers(MD5_GROUPS, 16)
  {
    forall p | 0 <= p < 16
      ensures Used(MD5_GROUPS, p)
    {
      assert MD5_GROUPS[p / 3].Uses(p);
    }
  }

  /** Encodings of 32 and 64 bytes have 43 and 86 characters, and lose nothing. */
  lemma {:induction false} Sha256EncodingInjective(a: Bytes, b: Bytes)
    requires |a| == |b| == 32
    ensures AllFit(SHA256_GROUPS, 32) && |Encode(a, SHA256_GROUPS)| == 43
    ensures Encode(a, SHA256_GROUPS) == Encode(b, SHA256_GROUPS) <==> a == b
  {
    Sha256GroupsCover();
    EncodedLength(a, SHA256_GROUPS, 10);
    if Encode(a, SHA256_GROUPS) == Encode(b, SHA256_GROUPS) { EncodeInjective(a, b, SHA256_GROUPS); }
  }

  lemma {:induction false} Sha512EncodingInjective(a: Bytes, b: Bytes)
    requires |a| == |b| == 64
    ensures AllFit(SHA512_GROUPS, 64) && |Encode(a, SHA512_GROUPS)| == 86
    ensures Encode(a, SHA512_GROUPS) == Encode(b, SHA512_GROUPS) <==> a == b
  {
    Sha512GroupsCover();
    EncodedLength(a, SHA512_GROUPS, 21);
    if Encode(a, SHA512_GROUPS) == Encode(b, SHA512_GROUPS) { EncodeInjective(a, b, SHA512_GROUPS); }
  }

  lemma {:induction false} FullGroupsLength(buf: Bytes, groups: seq<Group>)
    requires AllFit(groups, |buf|) && forall j :: 0 <= j < |groups| ==> groups[j].n == 4
    ensures |Encode(buf, groups)| == 4 * |groups|
  {
    if groups != [] { FullGroupsLength(buf, groups[..|groups| - 1]); }
  }

  lemma {:induction false} EncodedLength(buf: Bytes, groups: seq<Group>, full: nat)
    requires AllFit(groups, |buf|) && |groups| == full + 1
    requires forall j :: 0 <= j < full ==> groups[j].n == 4
    ensures |Encode(buf, groups)| == 4 * full + groups[full].n
  {
    FullGroupsLength(buf, groups[..full]);
  }

  lemma {:induction false} EncodePrintable(buf: Bytes, groups: seq<Group>)
    requires AllFit(groups, |buf|)
    ensures forall i :: 0 <= i < |Encode(buf, groups)| ==> '.' <= Encode(buf, groups)[i]
  {
    if groups != [] { EncodePrintable(buf, groups[..|groups| - 1]); }
  }

  // ----- Every character of an encoding -----

  /** Character i holds bits 6i to 6i + 5 of the word. */
  lemma {:induction false} SextetAt(w: nat, n: nat, i: nat)
    requires i < n
    ensures Sextets(w, n)[i] == Cov(w / Pow2(6 * i) % 64)
  {
    if i > 0 {
      SextetAt(w / 64, n - 1, i - 1);
      var high := Pow2(6 * (i - 1));
      DivDiv(w, 64, high);
      SixPow2(6 * (i - 1));
    } else {
      assert Pow2(0) == 1;
    }
  }

  /** The three bytes of a group, highest first, are the digits of its word to base 256. */
  lemma {:induction false} WordBytes(buf: Bytes, g: Group)
    requires g.Fits(|buf|)
    ensures var w := Word(buf, g);
            w / 65536 == ByteAt(buf, g.b2) && w / 256 % 256 == ByteAt(buf, g.b1) && w % 256 == ByteAt(buf, g.b0)
  {
    var a, b, c := ByteAt(buf, g.b2), ByteAt(buf, g.b1), ByteAt(buf, g.b0);
    RemainderOf(a, 65536, b * 256 + c);
    RemainderOf(a * 256 + b, 256, c);
    RemainderOf(a, 256, b);
  }

  /** Groups of four characters come one after the other. */
  lemma {:induction false} EncodedAt(buf: Bytes, groups: seq<Group>, j: nat, i: nat)
    requires AllFit(groups, |buf|) && j < |groups| && i < groups[j].n
    requires forall l :: 0 <= l < j ==> groups[l].n == 4
    ensures 4 * j + i < |Encode(buf, groups)|
    ensures Encode(buf, groups)[4 * j + i] == Cov(Word(buf, groups[j]) / Pow2(6 * i) % 64)
  {
    var last := |groups| - 1;
    if j < last {
      EncodedAt(buf, groups[..last], j, i);
    } else {
      FullGroupsLength(buf, groups[..last]);
      SextetAt(Word(buf, groups[j]), groups[j].n, i);
    }
  }

  // ----- The MD5 permutation -----

  /** Where byte i of the permuted buffer comes from: steps of 6 modulo 17, and two fix-ups
      for the positions the walk would take from 16, 5 and 11. */
  function Md5Source(i: nat): (p: nat)
    requires i < 16
    ensures p < 16
  {
    if i < 14 then 6 * i % 17 else if i == 14 then 5 else 11
  }

  function Permuted(buf: Bytes): Bytes
    requires |buf| == 16
  {
    seq(16, i requires 0 <= i < 16 => buf[Md5Source(i)])
  }

  lemma {:induction false} Md5SourceIsPermutation(p: nat)
    requires p < 16
    ensures var i := if 3 * p % 17 > 14 then 3 * p % 17 - 1 else 3 * p % 17;
            i < 16 && Md5Source(i) == p
  {
  }

  lemma {:induction false} PermutedInjective(a: Bytes, b: Bytes)
    requires |a| == |b| == 16 && Permuted(a) == Permuted(b)
    ensures a == b
  {
    forall p: nat | p < 16
      ensures a[p] == b[p]
    {
      Md5SourceIsPermutation(p);
      var i := if 3 * p % 17 > 14 then 3 * p % 17 - 1 else 3 * p % 17;
      assert Permuted(a)[i] == a[p] && Permuted(b)[i] == b[p];
    }
  }

  lemma {:induction false} Md5EncodingInjective(a: Bytes, b: Bytes)
    requires |a| == |b| == 16
    ensures AllFit(MD5_GROUPS, 16) && |Encode(Permuted(a), MD5_GROUPS)| == 22
    ensures Encode(Permuted(a), MD5_GROUPS) == Encode(Permuted(b), MD5_GROUPS) <==> a == b
  {
    Md5GroupsCover();
    EncodedLength(Permuted(a), MD5_GROUPS, 5);
    if Encode(Permuted(a), MD5_GROUPS) == Encode(Permuted(b), MD5_GROUPS) {
      EncodeInjective(Permuted(a), Permuted(b), MD5_GROUPS);
      PermutedInjective(a, b);
    }
  }

  /** The four hand-written characters of `md5crypt` are those of the SHA macro. */
  lemma {:induction false} Md5QuadIsSextets(p0: nat, p1: nat, p2: nat)
    requires p0 < 256 && p1 < 256 && p2 < 256
    ensures Sextets(p0 * 65536 + p1 * 256 + p2, 4)
            == [Cov(p2 % 64), Cov(p1 % 16 * 4 + p2 / 64), Cov(p0 % 4 * 16 + p1 / 16), Cov(p0 / 4)]
  {
    var w := p0 * 65536 + p1 * 256 + p2;
    var w1, w2 := p0 * 1024 + p1 * 4 + p2 / 64, p0 * 16 + p1 / 16;
    SextetsStep(p0 / 4, 0, p0 / 4, 0);
    SextetsStep(w2, p0 / 4, p0 % 4 * 16 + p1 / 16, 1);
    SextetsStep(w1, w2, p1 % 16 * 4 + p2 / 64, 2);
    SextetsStep(w, w1, p2 % 64, 3);
  }

  lemma {:induction false} SextetsStep(w: nat, high: nat, low: nat, n: nat)
    requires w == high * 64 + low && low < 64
    ensures Sextets(w, n + 1) == [Cov(low)] + Sextets(high, n)
  {
    RemainderOf(high, 64, low);
  }
}
