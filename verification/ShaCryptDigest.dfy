/** The digest computations behind `passwd -5`, `-6`, `-1` and `-apr1`.

    The specification functions follow steps 1 to 21 of "Unix crypt using SHA-256 and
    SHA-512" (Ulrich Drepper, SHA-crypt.txt). The methods are the loops of `shacrypt` and
    `md5crypt`: an EVP digest context is the text fed to it so far, and the digest itself
    is an arbitrary function with results of a fixed length. */
module ShaCryptDigest {

  type Byte = c: char | c as int < 256
  type Bytes = seq<Byte>

  /** A digest with results of k bytes. */
  ghost predicate Sized(hash: string -> Bytes, k: nat) {
    k > 0 && forall m :: |hash(m)| == k
  }

  // ----- The specification -----

  function Times(s: string, n: nat): string {
    if n == 0 then "" else Times(s, n - 1) + s
  }

  /** Steps 9 and 10, 16 and 20: for each whole block of the length the entire digest, for
      the remaining bytes the first bytes of the digest. */
  function Stretch(d: Bytes, n: nat): string
    requires |d| > 0
  {
    Times(d, n / |d|) + d[..n % |d|]
  }

  function Pow2(i: nat): (p: nat)
    ensures p > 0
  {
    if i == 0 then 1 else 2 * Pow2(i - 1)
  }

  predicate Bit(n: nat, i: nat) {
    n / Pow2(i) % 2 == 1
  }

  /** Number of binary digits up to and including the highest 1-digit. */
  function BitLength(n: nat): nat {
    if n == 0 then 0 else 1 + BitLength(n / 2)
  }

  /** Step 11: for each of the k lowest bits of n, lowest first, one text or the other. */
  function BitTexts(n: nat, k: nat, one: string, zero: string): string {
    if k == 0 then "" else BitTexts(n, k - 1, one, zero) + (if Bit(n, k - 1) then one else zero)
  }

  /** Steps 4 to 8. */
  function DigestB(hash: string -> Bytes, key: string, salt: string): Bytes {
    hash(key + salt + key)
  }

  /** Steps 1 to 3 and 9 to 12. */
  function DigestA(hash: string -> Bytes, key: string, salt: string): Bytes
    requires |DigestB(hash, key, salt)| > 0
  {
    var b := DigestB(hash, key, salt);
    hash(key + salt + Stretch(b, |key|) + BitTexts(|key|, BitLength(|key|), b, key))
  }

  /** Steps 13 to 16. */
  ghost function SequenceP(hash: string -> Bytes, key: string, k: nat): string
    requires Sized(hash, k)
  {
    Stretch(hash(Times(key, |key|)), |key|)
  }

  /** Steps 17 to 20. */
  ghost function SequenceS(hash: string -> Bytes, salt: string, a: Bytes, k: nat): string
    requires Sized(hash, k) && |a| > 0
  {
    Stretch(hash(Times(salt, 16 + a[0] as int)), |salt|)
  }

  /** Step 21, a to g. The MD5 variant uses the password and the salt themselves. */
  function RoundInput(i: nat, prev: string, p: string, s: string): string {
    (if i % 2 == 1 then p else prev)
    + (if i % 3 != 0 then s else "")
    + (if i % 7 != 0 then p else "")
    + (if i % 2 == 1 then prev else p)
  }

  /** Step 21: the digest after n rounds. */
  function Rounds(hash: string -> Bytes, n: nat, a: Bytes, p: string, s: string): Bytes {
    if n == 0 then a else hash(RoundInput(n - 1, Rounds(hash, n - 1, a, p, s), p, s))
  }

  /** Steps 1 to 21. */
  ghost function CryptDigest(hash: string -> Bytes, k: nat, key: string, salt: string, rounds: nat): Bytes
    requires Sized(hash, k)
  {
    var a := DigestA(hash, key, salt);
    Rounds(hash, rounds, a, SequenceP(hash, key, k), SequenceS(hash, salt, a, k))
  }

  // ----- Facts about the specification -----

  lemma {:induction false} TimesFront(s: string, n: nat)
    ensures Times(s, n + 1) == s + Times(s, n)
  {
    if n > 0 { TimesFront(s, n - 1); }
  }

  lemma {:induction false} TimesAt(s: string, n: nat, i: nat)
    requires |s| > 0
    ensures |Times(s, n)| == n * |s|
    ensures i < n * |s| ==> Times(s, n)[i] == s[i % |s|]
  {
    if n > 0 {
      TimesAt(s, n - 1, i);
      assert n * |s| == (n - 1) * |s| + |s|;
      if (n - 1) * |s| <= i < n * |s| {
        RemainderOf(n - 1, |s|, i - (n - 1) * |s|);
      }
    }
  }

  lemma {:induction false} RemainderOf(q: nat, k: nat, r: nat)
    requires r < k
    ensures (q * k + r) % k == r && (q * k + r) / k == q
  {
    var x := q * k + r;
    var q' := x / k;
    assert x == q' * k + x % k;
    if q' > q {
      MulMonotone(q + 1, q', k);
    } else if q' < q {
      MulMonotone(q' + 1, q, k);
    }
  }

  lemma {:induction false} MulMonotone(a: nat, b: nat, k: nat)
    requires a <= b
    ensures a * k <= b * k
  {
  }

  /** Whole blocks and a remainder are the digest repeated cyclically. */
  lemma {:induction false} StretchIsCyclic(d: Bytes, n: nat)
    requires |d| > 0
    ensures |Stretch(d, n)| == n
    ensures forall i :: 0 <= i < n ==> Stretch(d, n)[i] == d[i % |d|]
  {
    var k, q := |d|, n / |d|;
    TimesAt(d, q, 0);
    forall i | 0 <= i < n
      ensures Stretch(d, n)[i] == d[i % k]
    {
      TimesAt(d, q, i);
      if i >= q * k { RemainderOf(q, k, i - q * k); }
    }
  }

  lemma {:induction false} StretchStep(d: Bytes, n: nat)
    requires |d| > 0 && n >= |d|
    ensures Stretch(d, n) == d + Stretch(d, n - |d|)
  {
    var k := |d|;
    RemainderOf(n / k - 1, k, n % k);
    assert n - k == (n / k - 1) * k + n % k;
    TimesFront(d, n / k - 1);
  }

  lemma {:induction false} StretchShort(d: Bytes, n: nat)
    requires |d| > 0 && n <= |d|
    ensures Stretch(d, n) == d[..n]
  {
    if n == |d| {
      StretchStep(d, n);
      assert Stretch(d, 0) == "";
    }
  }

  /** One block more done, one block fewer to go. */
  lemma {:induction false} StretchAdvance(done: string, d: Bytes, n: nat, all: string)
    requires |d| > 0 && n >= |d|
    requires done + Stretch(d, n) == all
    ensures done + d + Stretch(d, n - |d|) == all
  {
    StretchStep(d, n);
  }

  lemma {:induction false} BitLengthBound(n: nat, i: nat)
    ensures i < BitLength(n) <==> n / Pow2(i) > 0
  {
    if i > 0 {
      HalveOnce(n, i - 1);
      HalfThenPow2(n, i - 1);
      BitLengthBound(n / 2, i - 1);
    }
  }

  lemma {:induction false} HalveOnce(n: nat, i: nat)
    ensures n / Pow2(i + 1) == n / Pow2(i) / 2
  {
    var p := Pow2(i);
    DivDiv(n, p, 2);
  }

  lemma {:induction false} HalfThenPow2(n: nat, i: nat)
    ensures n / 2 / Pow2(i) == n / Pow2(i) / 2
  {
    DivDiv(n, Pow2(i), 2);
    DivDiv(n, 2, Pow2(i));
  }

  lemma {:induction false} Distribute(x: int, y: int, a: int)
    ensures (x + y) * a == x * a + y * a
  {
  }

  lemma {:induction false} Regroup(q: int, b: int, a: int)
    ensures q * b * a == q * (a * b)
  {
  }

  lemma {:induction false} DivDiv(n: nat, a: nat, b: nat)
    requires a > 0 && b > 0
    ensures a * b > 0 && n / a / b == n / (a * b)
  {
    var m, q, r, k := n / a, n / a / b, n / a % b, a * b;
    calc {
      n;
      m * a + n % a;
      { assert m == q * b + r; }
      (q * b + r) * a + n % a;
      { Distribute(q * b, r, a); }
      q * b * a + r * a + n % a;
      { Regroup(q, b, a); }
      q * k + (r * a + n % a);
    }
    MulMonotone(r + 1, b, a);
    Distribute(r, 1, a);
    Regroup(1, b, a);
    RemainderOf(q, k, r * a + n % a);
  }

  lemma {:induction false} BitsOfHalf(n: nat, k: nat, one: string, zero: string)
    ensures BitTexts(n, k + 1, one, zero) == (if n % 2 == 1 then one else zero) + BitTexts(n / 2, k, one, zero)
  {
    if k == 0 {
      assert BitTexts(n, 0, one, zero) == "" && Pow2(0) == 1;
    } else {
      BitsOfHalf(n, k - 1, one, zero);
      HalveOnce(n, k - 1);
      HalfThenPow2(n, k - 1);
    }
  }

  /** The texts for the bits of a number: the one for its lowest bit, and then those for its half. */
  lemma {:induction false} LowestBitFirst(n: nat, one: string, zero: string)
    requires n > 0
    ensures BitTexts(n, BitLength(n), one, zero)
            == (if n % 2 == 1 then one else zero) + BitTexts(n / 2, BitLength(n / 2), one, zero)
  {
    BitsOfHalf(n, BitLength(n / 2), one, zero);
  }

  /** What a round feeds, by its place in the text: odd rounds have P first and the last digest at
      the end, even rounds the other way round; S follows the first of them unless 3 divides the
      number of the round, and another P precedes the last unless 7 does; there is nothing else. */
  lemma {:induction false} RoundShape(i: nat, prev: string, p: string, s: string)
    ensures var text := RoundInput(i, prev, p, s);
            var first, last := if i % 2 == 1 then p else prev, if i % 2 == 1 then prev else p;
            var tail := |text| - |last|;
            && |text| == |prev| + |p| + (if i % 3 == 0 then 0 else |s|) + (if i % 7 == 0 then 0 else |p|)
            && first <= text && text[tail..] == last
            && (i % 3 != 0 ==> text[|first|..|first| + |s|] == s)
            && (i % 7 != 0 ==> text[tail - |p|..tail] == p)
  {
  }

  /** A round depends on S exactly when 3 does not divide its number. */
  lemma {:induction false} RoundUsesSalt(i: nat, prev: string, p: string, s: string, t: string)
    ensures RoundInput(i, prev, p, s) == RoundInput(i, prev, p, t) <==> i % 3 == 0 || s == t
  {
    RoundShape(i, prev, p, s);
    RoundShape(i, prev, p, t);
  }

  /** Each digest is that of the round with its number, counted from 0, on the one before. */
  ghost predicate Chain(hash: string -> Bytes, t: seq<Bytes>, p: string, s: string) {
    forall k :: 0 < k < |t| ==> t[k] == hash(RoundInput(k - 1, t[k - 1], p, s))
  }

  /** The rounds give the end of every such chain. */
  lemma {:induction false} RoundsChain(hash: string -> Bytes, t: seq<Bytes>, p: string, s: string)
    requires t != [] && Chain(hash, t, p, s)
    ensures Rounds(hash, |t| - 1, t[0], p, s) == t[|t| - 1]
  {
    var n := |t| - 1;
    if n > 0 {
      RoundsChain(hash, t[..n], p, s);
      assert t[n] == hash(RoundInput(n - 1, t[n - 1], p, s));
    }
  }

  lemma {:induction false} StretchOfTwo(d: Bytes)
    requires |d| >= 2
    ensures Stretch(d, 2) == d[..2]
  {
    StretchShort(d, 2);
  }

  lemma {:induction false} BitsOfTwo(one: string, zero: string)
    ensures BitTexts(2, BitLength(2), one, zero) == zero + one
  {
    LowestBitFirst(2, one, zero);
    LowestBitFirst(1, one, zero);
    assert BitTexts(0, BitLength(0), one, zero) == "";
  }

  lemma {:induction false} TimesTwo(s: string)
    ensures Times(s, 2) == s + s
  {
    assert Times(s, 1) == "" + s == s;
  }

  /** The whole computation written out for a password of two characters, a salt no longer than the
      digest, and two rounds. */
  lemma {:induction false} ShortPassword(hash: string -> Bytes, k: nat, key: string, salt: string)
    requires Sized(hash, k) && k >= 2 && |key| == 2 && |salt| <= k
    ensures var b := hash(key + salt + key);
            var a := hash(key + salt + b[..2] + (key + b));
            var p, s := hash(key + key)[..2], hash(Times(salt, 16 + a[0] as int))[..|salt|];
            CryptDigest(hash, k, key, salt, 2) == hash(p + s + p + hash(a + p))
  {
    var b := hash(key + salt + key);
    StretchOfTwo(b);
    BitsOfTwo(b, key);
    TimesTwo(key);
    var a := DigestA(hash, key, salt);
    StretchOfTwo(hash(key + key));
    StretchShort(hash(Times(salt, 16 + a[0] as int)), |salt|);
    TwoRounds(hash, a, SequenceP(hash, key, k), SequenceS(hash, salt, a, k));
  }

  lemma {:induction false} TwoRounds(hash: string -> Bytes, a: Bytes, p: string, s: string)
    ensures Rounds(hash, 2, a, p, s) == hash(p + s + p + hash(a + p))
  {
    assert RoundInput(0, a, p, s) == a + p;
    assert Rounds(hash, 1, a, p, s) == hash(a + p);
  }

  // ----- The loops -----

  /** Feed a digest over a length: the block loop and the final partial update. */
  method FeedStretched(ctx: string, d: Bytes, len: nat) returns (fed: string)
    requires |d| > 0
    ensures fed == ctx + Stretch(d, len)
  {
    fed := ctx;
    var n: nat := len;
    while n > |d|
      invariant n <= len
      invariant fed + Stretch(d, n) == ctx + Stretch(d, len)
    {
      StretchAdvance(fed, d, n, ctx + Stretch(d, len));
      fed := fed + d;
      n := n - |d|;
    }
    StretchShort(d, n);
    fed := fed + d[..n];
  }

  method Memcpy(dst: array<Byte>, at: nat, src: Bytes)
    requires at + |src| <= dst.Length
    modifies dst
    ensures dst[..at + |src|] == old(dst[..at]) + src
    ensures dst[at + |src|..] == old(dst[at + |src|..])
  {
    forall i | 0 <= i < |src| { dst[at + i] := src[i]; }
    assert dst[..at] == old(dst[..at]);
  }

  /** The P and S sequences: a zeroed buffer filled block by block from a moving pointer. */
  method FillStretched(d: Bytes, len: nat) returns (bytes: array<Byte>)
    requires |d| > 0
    ensures fresh(bytes)
    ensures bytes[..] == Stretch(d, len)
  {
    bytes := new Byte[len](_ => '\0');
    var cp: nat, n: nat := 0, len;
    ghost var done := "";
    while n > |d|
      invariant cp + n == len == bytes.Length && bytes[..cp] == done
      invariant done + Stretch(d, n) == Stretch(d, len)
    {
      StretchAdvance(done, d, n, Stretch(d, len));
      Memcpy(bytes, cp, d);
      n, cp, done := n - |d|, cp + |d|, done + d;
    }
    StretchShort(d, n);
    Memcpy(bytes, cp, d[..n]);
    assert bytes[..] == done + d[..n];
  }

  /** A fresh context fed the same text again and again. */
  method FeedTimes(s: string, times: nat) returns (fed: string)
    ensures fed == Times(s, times)
  {
    fed := "";
    var n: nat := times;
    while n > 0
      invariant n <= times
      invariant fed == Times(s, times - n)
    {
      fed := fed + s;
      n := n - 1;
    }
  }

  lemma {:induction false} NextBitText(ctx: string, len: nat, i: nat, one: string, zero: string, text: string)
    requires text == if Bit(len, i) then one else zero
    ensures ctx + BitTexts(len, i, one, zero) + text == ctx + BitTexts(len, i + 1, one, zero)
  {
  }

  /** The walk over the bits of a length, lowest first. */
  method FeedBits(ctx: string, len: nat, one: string, zero: string) returns (fed: string)
    ensures fed == ctx + BitTexts(len, BitLength(len), one, zero)
  {
    fed := ctx;
    var n := len;
    ghost var i := 0;
    BitLengthBound(len, 0);
    while n != 0
      invariant i <= BitLength(len) && n == len / Pow2(i)
      invariant fed == ctx + BitTexts(len, i, one, zero)
      decreases n
    {
      var text := if n % 2 == 1 then one else zero;
      NextBitText(ctx, len, i, one, zero, text);
      fed := fed + text;
      BitLengthBound(len, i);
      HalveOnce(len, i);
      n := n / 2;
      i := i + 1;
    }
    BitLengthBound(len, i);
  }

  method RunRounds(hash: string -> Bytes, rounds: nat, a: Bytes, p: string, s: string) returns (buf: Bytes)
    ensures buf == Rounds(hash, rounds, a, p, s)
  {
    buf := a;
    for n := 0 to rounds
      invariant buf == Rounds(hash, n, a, p, s)
    {
      var ctx := if n % 2 == 1 then p else buf;
      if n % 3 != 0 { ctx := ctx + s; }
      if n % 7 != 0 { ctx := ctx + p; }
      ctx := ctx + if n % 2 == 1 then buf else p;
      assert ctx == RoundInput(n, buf, p, s);
      buf := hash(ctx);
    }
  }

  /** Digests B and A: the first two contexts of `shacrypt`. */
  method ComputeA(hash: string -> Bytes, ghost k: nat, key: string, salt: string) returns (buf: Bytes)
    requires Sized(hash, k)
    ensures buf == DigestA(hash, key, salt)
  {
    var md := key + salt;
    buf := hash(key + salt + key);
    md := FeedStretched(md, buf, |key|);
    md := FeedBits(md, |key|, buf, key);
    buf := hash(md);
  }

  method ComputeP(hash: string -> Bytes, ghost k: nat, key: string) returns (p: string)
    requires Sized(hash, k)
    ensures p == SequenceP(hash, key, k)
  {
    var md2 := FeedTimes(key, |key|);
    var pBytes := FillStretched(hash(md2), |key|);
    p := pBytes[..];
  }

  method ComputeS(hash: string -> Bytes, ghost k: nat, salt: string, buf: Bytes) returns (s: string)
    requires Sized(hash, k) && |buf| > 0
    ensures s == SequenceS(hash, salt, buf, k)
  {
    var md2 := FeedTimes(salt, 16 + buf[0] as int);
    var sBytes := FillStretched(hash(md2), |salt|);
    s := sBytes[..];
  }

  /** The digest part of `shacrypt` computes steps 1 to 21. */
  method ShaDigest(hash: string -> Bytes, ghost k: nat, key: string, salt: string, rounds: nat) returns (buf: Bytes)
    requires Sized(hash, k)
    ensures buf == CryptDigest(hash, k, key, salt, rounds)
    ensures |buf| == k
  {
    buf := ComputeA(hash, k, key, salt);
    var p := ComputeP(hash, k, key);
    var s := ComputeS(hash, k, salt, buf);
    buf := RunRounds(hash, rounds, buf, p, s);
  }
}
