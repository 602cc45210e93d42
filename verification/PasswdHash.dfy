/** `md5crypt` and `shacrypt`: settings text, digest and encoded digest built up in a fixed
    static buffer. */
module PasswdHash {
  import opened CText
  import opened ShaCryptDigest
  import opened CryptEncoding

  const ROUNDS_PREFIX := "rounds="
  const SALT_LEN_MAX := 16
  const ROUNDS_DEFAULT := 5000
  const ROUNDS_MIN := 1000
  const ROUNDS_MAX := 999999999
  const SHA_OUT_SIZE := 3 + 17 + 17 + 86 + 1
  const MD5_OUT_SIZE := 6 + 9 + 24 + 2

  /** The three digests, as arbitrary functions with results of the right length. */
  datatype Digests = Digests(md5: string -> Bytes, sha256: string -> Bytes, sha512: string -> Bytes) {
    ghost predicate Ok() {
      Sized(md5, 16) && Sized(sha256, 32) && Sized(sha512, 64)
    }
  }

  // ----- What the functions are to return -----

  datatype Salt = Salt(rounds: nat, custom: bool, text: string)

  function Clamp(n: nat): nat {
    if n > ROUNDS_MAX then ROUNDS_MAX else if n < ROUNDS_MIN then ROUNDS_MIN else n
  }

  /** The salt argument: an optional "rounds=N$", then the salt proper. */
  function ParseSalt(salt: string): Option<Salt> {
    if ROUNDS_PREFIX <= salt then
      var num := salt[|ROUNDS_PREFIX|..];
      var (srounds, end) := Strtoul(num);
      if end < |num| && num[end] == '$' then Some(Salt(Clamp(srounds), true, num[end + 1..])) else None
    else
      Some(Salt(ROUNDS_DEFAULT, false, salt))
  }

  /** The settings as they are printed between the magic and the digest. */
  function SettingsText(st: Salt): string {
    var salt := Cut(st.text, SALT_LEN_MAX);
    if st.custom then ROUNDS_PREFIX + (PrintDec(st.rounds) + ("$" + salt)) else salt
  }

  predicate IsShaMagic(magic: string) {
    magic == "5" || magic == "6"
  }

  function DigestSize(magic: string): nat {
    if magic == "5" then 32 else 64
  }

  function ShaOf(h: Digests, magic: string): string -> Bytes {
    if magic == "5" then h.sha256 else h.sha512
  }

  function ShaGroups(magic: string): seq<Group> {
    if magic == "5" then SHA256_GROUPS else SHA512_GROUPS
  }

  function EncodedSize(magic: string): nat {
    if magic == "5" then 43 else 86
  }

  lemma {:induction false} ShaGroupsFit(magic: string)
    ensures AllFit(ShaGroups(magic), DigestSize(magic))
  {
    Sha256GroupsCover();
    Sha512GroupsCover();
  }

  /** The encoded final digest. */
  ghost function ShaCode(h: Digests, passwd: string, magic: string, st: Salt): string
    requires h.Ok() && IsShaMagic(magic)
  {
    var digest := CryptDigest(ShaOf(h, magic), DigestSize(magic), passwd, Cut(st.text, SALT_LEN_MAX), st.rounds);
    CryptDigestSize(ShaOf(h, magic), DigestSize(magic), passwd, Cut(st.text, SALT_LEN_MAX), st.rounds);
    ShaGroupsFit(magic);
    Encode(digest, ShaGroups(magic))
  }

  lemma {:induction false} CryptDigestSize(hash: string -> Bytes, k: nat, key: string, salt: string, rounds: nat)
    requires Sized(hash, k)
    ensures |CryptDigest(hash, k, key, salt, rounds)| == k
  {
  }

  /** The hash string, or nothing: an unknown magic, an unterminated rounds prefix, and an
      empty password or salt (a zero-size allocation, which fails) are refused. */
  ghost function ShaText(h: Digests, passwd: string, magic: string, salt: string): Option<string>
    requires h.Ok()
  {
    if !IsShaMagic(magic) then None else
      match ParseSalt(salt)
      case None => None
      case Some(st) =>
        if passwd == "" || st.text == "" then None else Some(ShaLine(h, passwd, magic, st))
  }

  ghost function ShaLine(h: Digests, passwd: string, magic: string, st: Salt): string
    requires h.Ok() && IsShaMagic(magic)
  {
    "$" + magic + "$" + SettingsText(st) + "$" + ShaCode(h, passwd, magic, st)
  }

  function Md5Prefix(magic: string): string {
    if magic == "" then "" else "$" + magic + "$"
  }

  function Md5DigestA(hash: string -> Bytes, passwd: string, magic: string, salt: string): Bytes
    requires |DigestB(hash, passwd, salt)| > 0
  {
    var b := DigestB(hash, passwd, salt);
    hash(passwd + Md5Prefix(magic) + salt + Stretch(b, |passwd|)
         + BitTexts(|passwd|, BitLength(|passwd|), "\0", Cut(passwd, 1)))
  }

  ghost function Md5Code(h: Digests, passwd: string, magic: string, salt: string): string
    requires h.Ok()
  {
    Md5GroupsCover();
    Encode(Permuted(Rounds(h.md5, 1000, Md5DigestA(h.md5, passwd, magic, salt), passwd, salt)), MD5_GROUPS)
  }

  ghost function Md5Text(h: Digests, passwd: string, magic: string, salt: string): Option<string>
    requires h.Ok()
  {
    if |magic| > 4 then None else
      Some(Md5Prefix(magic) + Cut(salt, 8) + "$" + Md5Code(h, passwd, magic, Cut(salt, 8)))
  }

  // ----- Re-hashing with the printed settings -----

  lemma {:induction false} RoundsInRange(salt: string)
    requires ParseSalt(salt).Some?
    ensures ROUNDS_MIN <= ParseSalt(salt).value.rounds <= ROUNDS_MAX
  {
  }

  lemma {:induction false} ParseCustom(digits: string, rounds: nat, text: string)
    requires Strtoul(digits + ("$" + text)) == (rounds, |digits|)
    ensures ParseSalt(ROUNDS_PREFIX + (digits + ("$" + text))) == Some(Salt(Clamp(rounds), true, text))
  {
    var num := digits + ("$" + text);
    assert (ROUNDS_PREFIX + num)[|ROUNDS_PREFIX|..] == num;
    assert num[|digits| + 1..] == text;
  }

  /** Whatever number is asked for, saturated or not, the rounds are that number brought into the
      range from 1000 to 999999999, and the salt is everything after the dollar. */
  lemma {:induction false} RoundsAreClamped(n: nat, text: string)
    ensures ParseSalt(ROUNDS_PREFIX + (PrintDec(n) + ("$" + text))) == Some(Salt(Clamp(n), true, text))
    ensures (1000 <= n <= 999999999 ==> Clamp(n) == n)
            && (n < 1000 ==> Clamp(n) == 1000) && (n > 999999999 ==> Clamp(n) == 999999999)
  {
    StrtoulSaturates(n, "$" + text);
    ParseCustom(PrintDec(n), if n <= ULONG_MAX then n else ULONG_MAX, text);
  }

  /** A negative number wraps around to a very large one, so it asks for the most rounds. */
  lemma {:induction false} NegativeRounds(n: nat, text: string)
    requires 0 < n <= LONG_MAX
    ensures ParseSalt(ROUNDS_PREFIX + ("-" + PrintDec(n) + ("$" + text))) == Some(Salt(999999999, true, text))
  {
    StrtoulWraps(n, "$" + text);
    ParseCustom("-" + PrintDec(n), ULONG_MAX + 1 - n, text);
  }

  /** No number at all is zero, and asks for the fewest. */
  lemma {:induction false} MissingRounds(text: string)
    ensures ParseSalt(ROUNDS_PREFIX + ("" + ("$" + text))) == Some(Salt(1000, true, text))
  {
    NothingScanned("", "", "$" + text);
    assert "" + "" + ("$" + text) == "" + ("$" + text);
    ParseCustom("", 0, text);
  }

  /** Without a dollar after the number the argument is refused. */
  lemma {:induction false} RoundsNeedDollar(n: nat, rest: string)
    requires rest == "" || (!IsDigit(rest[0]) && rest[0] != '$')
    ensures ParseSalt(ROUNDS_PREFIX + (PrintDec(n) + rest)) == None
  {
    StrtoulSaturates(n, rest);
    var num := PrintDec(n) + rest;
    assert (ROUNDS_PREFIX + num)[|ROUNDS_PREFIX|..] == num;
  }

  /** Any other argument is the salt, with 5000 rounds that are not printed. */
  lemma {:induction false} PlainSalt(salt: string)
    requires !("rounds=" <= salt)
    ensures ParseSalt(salt) == Some(Salt(5000, false, salt)) && SettingsText(Salt(5000, false, salt)) == Cut(salt, 16)
  {
  }

  /** Parsing the printed settings gives the same settings, truncation included. */
  lemma {:induction false} SettingsAreFixed(salt: string)
    requires ParseSalt(salt).Some?
    ensures var st := ParseSalt(salt).value;
            ParseSalt(SettingsText(st)) == Some(st.(text := Cut(st.text, SALT_LEN_MAX)))
  {
    var st := ParseSalt(salt).value;
    var text := Cut(st.text, SALT_LEN_MAX);
    if st.custom {
      RoundsInRange(salt);
      RoundsAreClamped(st.rounds, text);
    } else {
      assert SettingsText(st) == text;
      assert !(ROUNDS_PREFIX <= text);
    }
  }

  /** The line for truncated settings is the line for the settings. */
  lemma {:induction false} LineOfCut(h: Digests, passwd: string, magic: string, st: Salt)
    requires h.Ok() && IsShaMagic(magic)
    ensures ShaLine(h, passwd, magic, st.(text := Cut(st.text, SALT_LEN_MAX))) == ShaLine(h, passwd, magic, st)
  {
    CutTwice(st);
  }

  lemma {:induction false} SettingsOfLine(h: Digests, passwd: string, magic: string, st: Salt)
    requires h.Ok() && IsShaMagic(magic)
    ensures var out := ShaLine(h, passwd, magic, st);
            |out| >= 4 + EncodedSize(magic) && out[3..|out| - 1 - EncodedSize(magic)] == SettingsText(st)
  {
    ShaCodeSize(h, passwd, magic, st);
    SettingsInMiddle(magic, SettingsText(st), ShaCode(h, passwd, magic, st));
  }

  /** A password hashed again with the settings printed in its own hash gives that hash. */
  lemma {:induction false} ShaRehash(h: Digests, passwd: string, magic: string, salt: string)
    requires h.Ok() && ShaText(h, passwd, magic, salt).Some?
    ensures var out := ShaText(h, passwd, magic, salt).value;
            |out| >= 4 + EncodedSize(magic)
            && ShaText(h, passwd, magic, out[3..|out| - 1 - EncodedSize(magic)]) == Some(out)
  {
    var st := ParseSalt(salt).value;
    SettingsOfLine(h, passwd, magic, st);
    SettingsAreFixed(salt);
    LineOfCut(h, passwd, magic, st);
  }

  lemma {:induction false} SettingsInMiddle(magic: string, settings: string, code: string)
    requires |magic| == 1
    ensures var out := "$" + magic + "$" + settings + "$" + code;
            |out| >= 4 + |code| && out[3..|out| - 1 - |code|] == settings
  {
  }

  /** Truncating the salt a second time changes neither the settings nor the digest. */
  lemma {:induction false} CutTwice(st: Salt)
    ensures var st' := st.(text := Cut(st.text, SALT_LEN_MAX));
            SettingsText(st') == SettingsText(st) && Cut(st'.text, SALT_LEN_MAX) == Cut(st.text, SALT_LEN_MAX)
  {
  }

  lemma {:induction false} ShaCodeSize(h: Digests, passwd: string, magic: string, st: Salt)
    requires h.Ok() && IsShaMagic(magic)
    ensures |ShaCode(h, passwd, magic, st)| == EncodedSize(magic)
  {
    var digest := CryptDigest(ShaOf(h, magic), DigestSize(magic), passwd, Cut(st.text, SALT_LEN_MAX), st.rounds);
    CryptDigestSize(ShaOf(h, magic), DigestSize(magic), passwd, Cut(st.text, SALT_LEN_MAX), st.rounds);
    if magic == "5" { Sha256EncodingInjective(digest, digest); } else { Sha512EncodingInjective(digest, digest); }
  }

  lemma {:induction false} Md5Rehash(h: Digests, passwd: string, magic: string, salt: string)
    requires h.Ok() && Md5Text(h, passwd, magic, salt).Some?
    ensures var out := Md5Text(h, passwd, magic, salt).value;
            var start := |Md5Prefix(magic)|;
            |out| >= start + 23
            && Md5Text(h, passwd, magic, out[start..|out| - 23]) == Some(out)
  {
    var out := Md5Text(h, passwd, magic, salt).value;
    var text := Cut(salt, 8);
    Md5CodeSize(h, passwd, magic, text);
    assert out == Md5Prefix(magic) + text + "$" + Md5Code(h, passwd, magic, text);
    assert out[|Md5Prefix(magic)|..|out| - 23] == text;
  }

  lemma {:induction false} Md5CodeSize(h: Digests, passwd: string, magic: string, salt: string)
    requires h.Ok()
    ensures |Md5Code(h, passwd, magic, salt)| == 22
  {
    var digest := Rounds(h.md5, 1000, Md5DigestA(h.md5, passwd, magic, salt), passwd, salt);
    Md5EncodingInjective(digest, digest);
  }

  /** The hash for a plain salt, written out for both digests. */
  lemma {:induction false} PlainHash(h: Digests, passwd: string, salt: string)
    requires h.Ok() && passwd != "" && salt != "" && !("rounds=" <= salt)
    ensures AllFit(SHA256_GROUPS, 32) && AllFit(SHA512_GROUPS, 64)
    ensures var text := Cut(salt, 16);
            var d, e := CryptDigest(h.sha256, 32, passwd, text, 5000), CryptDigest(h.sha512, 64, passwd, text, 5000);
            && |d| == 32 && ShaText(h, passwd, "5", salt) == Some("$5$" + text + "$" + Encode(d, SHA256_GROUPS))
            && |e| == 64 && ShaText(h, passwd, "6", salt) == Some("$6$" + text + "$" + Encode(e, SHA512_GROUPS))
  {
    PlainSalt(salt);
    ShaGroupsFit("5");
    ShaGroupsFit("6");
    CryptDigestSize(h.sha256, 32, passwd, Cut(salt, 16), 5000);
    CryptDigestSize(h.sha512, 64, passwd, Cut(salt, 16), 5000);
    assert "$" + "5" + "$" == "$5$" && "$" + "6" + "$" == "$6$";
  }

  /** The hash for a salt with a number of rounds: the number is printed as it is used. */
  lemma {:induction false} CustomHash(h: Digests, passwd: string, magic: string, n: nat, salt: string)
    requires h.Ok() && passwd != "" && salt != "" && IsShaMagic(magic)
    ensures var st := Salt(Clamp(n), true, salt);
            ShaText(h, passwd, magic, "rounds=" + (PrintDec(n) + ("$" + salt)))
            == Some("$" + magic + "$" + ("rounds=" + (PrintDec(Clamp(n)) + ("$" + Cut(salt, 16)))) + "$"
                    + ShaCode(h, passwd, magic, st))
  {
    RoundsAreClamped(n, salt);
  }

  /** An empty password, an empty salt and any other magic are refused. */
  lemma {:induction false} NoHash(h: Digests, passwd: string, magic: string, salt: string, n: nat)
    requires h.Ok()
    ensures ShaText(h, "", magic, salt) == None && ShaText(h, passwd, magic, "") == None
    ensures ShaText(h, passwd, magic, ROUNDS_PREFIX + (PrintDec(n) + ("$" + ""))) == None
    ensures magic != "5" && magic != "6" ==> ShaText(h, passwd, magic, salt) == None
  {
    PlainSalt("");
    RoundsAreClamped(n, "");
  }

  /** The MD5 hash written out for a password of two characters. */
  lemma {:induction false} ShortMd5Password(h: Digests, passwd: string, magic: string, salt: string)
    requires h.Ok() && |passwd| == 2 && |salt| <= 8
    ensures AllFit(MD5_GROUPS, 16)
    ensures var b := h.md5(passwd + salt + passwd);
            var prefix := if magic == "" then "" else "$" + magic + "$";
            var a := h.md5(passwd + prefix + salt + b[..2] + (passwd[..1] + "\0"));
            Md5Text(h, passwd, magic, salt)
            == if |magic| > 4 then None
               else Some(prefix + salt + "$" + Encode(Permuted(Rounds(h.md5, 1000, a, passwd, salt)), MD5_GROUPS))
  {
    StretchOfTwo(h.md5(passwd + salt + passwd));
    BitsOfTwo("\0", Cut(passwd, 1));
    Md5GroupsCover();
  }

  /** Only the first eight characters of the salt count. */
  lemma {:induction false} Md5SaltIsCut(h: Digests, passwd: string, magic: string, salt: string)
    requires h.Ok()
    ensures Md5Text(h, passwd, magic, salt) == Md5Text(h, passwd, magic, Cut(salt, 8))
  {
  }

  /** The settings of a SHA hash take at most 33 characters. */
  lemma {:induction false} SettingsLength(salt: string)
    requires ParseSalt(salt).Some?
    ensures var st := ParseSalt(salt).value;
            |SettingsText(st)| <= (if st.custom then 17 else 0) + |Cut(st.text, SALT_LEN_MAX)|
            && (|SettingsText(st)| == 33 <==> st.custom && st.rounds >= 100000000 && |st.text| >= SALT_LEN_MAX)
  {
    var st := ParseSalt(salt).value;
    RoundsInRange(salt);
    assert Pow10(8) == 100000000 && Pow10(9) == 1000000000 by { Pow10Values(); }
    PrintDecLength(st.rounds, 8);
    PrintDecLength(st.rounds, 9);
  }

  lemma {:induction false} Pow10Values()
    ensures Pow10(8) == 100000000 && Pow10(9) == 1000000000
  {
    assert Pow10(4) == 10000;
    assert Pow10(6) == 1000000;
  }

  /** With its terminator every SHA hash fits the static buffer, and fills it exactly for
      SHA-512 with a nine-digit round count and a full-length salt. */
  lemma {:induction false} ShaTextFits(h: Digests, passwd: string, magic: string, salt: string)
    requires h.Ok() && ShaText(h, passwd, magic, salt).Some?
    ensures var st := ParseSalt(salt).value;
            var size := |ShaText(h, passwd, magic, salt).value| + 1;
            size <= SHA_OUT_SIZE
            && (size == SHA_OUT_SIZE
                <==> magic == "6" && st.custom && st.rounds >= 100000000 && |st.text| >= SALT_LEN_MAX)
  {
    SettingsLength(salt);
    ShaCodeSize(h, passwd, magic, ParseSalt(salt).value);
  }

  /** Every MD5 hash takes at most 38 bytes of its buffer, and so many exactly for a magic of four
      characters and a full-length salt. */
  lemma {:induction false} Md5TextFits(h: Digests, passwd: string, magic: string, salt: string)
    requires h.Ok() && Md5Text(h, passwd, magic, salt).Some?
    ensures var size := |Md5Text(h, passwd, magic, salt).value| + 1;
            size <= 38 < MD5_OUT_SIZE && (size == 38 <==> |magic| == 4 && |salt| >= 8)
  {
    Md5CodeSize(h, passwd, magic, Cut(salt, 8));
  }

  /** Two passwords with the same settings have the same hash only if their final digests
      are the same. */
  lemma {:induction false} ShaTextDeterminesDigest(h: Digests, p: string, p': string, magic: string, salt: string)
    requires h.Ok() && ShaText(h, p, magic, salt).Some? && ShaText(h, p', magic, salt).Some?
    ensures var st := ParseSalt(salt).value;
            ShaText(h, p, magic, salt) == ShaText(h, p', magic, salt)
            <==> CryptDigest(ShaOf(h, magic), DigestSize(magic), p, Cut(st.text, SALT_LEN_MAX), st.rounds)
                 == CryptDigest(ShaOf(h, magic), DigestSize(magic), p', Cut(st.text, SALT_LEN_MAX), st.rounds)
  {
    var st := ParseSalt(salt).value;
    var key := Cut(st.text, SALT_LEN_MAX);
    var hash, k := ShaOf(h, magic), DigestSize(magic);
    CryptDigestSize(hash, k, p, key, st.rounds);
    CryptDigestSize(hash, k, p', key, st.rounds);
    var d, d' := CryptDigest(hash, k, p, key, st.rounds), CryptDigest(hash, k, p', key, st.rounds);
    if magic == "5" { Sha256EncodingInjective(d, d'); } else { Sha512EncodingInjective(d, d'); }
    var front := "$" + magic + "$" + SettingsText(st) + "$";
    if front + ShaCode(h, p, magic, st) == front + ShaCode(h, p', magic, st) {
      ConcatSplit(front, ShaCode(h, p, magic, st), front, ShaCode(h, p', magic, st));
    }
  }

  // ----- The code -----

  /** `b64_from_24bit`. */
  method PutSextets(buf: array<char>, cp: nat, word: nat, n: nat) returns (end: nat)
    requires cp + n <= buf.Length
    modifies buf
    ensures end == cp + n
    ensures buf[..end] == old(buf[..cp]) + Sextets(word, n)
  {
    end := cp;
    var w, i := word, n;
    ghost var written := "";
    while i > 0
      invariant 0 <= i <= n && 0 <= w && end == cp + n - i
      invariant buf[..end] == old(buf[..cp]) + written
      invariant written + Sextets(w, i) == Sextets(word, n)
    {
      buf[end] := Cov(w % 64);
      written := written + [Cov(w % 64)];
      assert buf[..end + 1] == buf[..end] + [Cov(w % 64)];
      end, w, i := end + 1, w / 64, i - 1;
    }
  }

  /** The macro calls for one digest, in order. */
  method PutGroups(buf: array<char>, cp: nat, digest: Bytes, groups: seq<Group>) returns (end: nat)
    requires AllFit(groups, |digest|) && cp + |Encode(digest, groups)| <= buf.Length
    modifies buf
    ensures end == cp + |Encode(digest, groups)|
    ensures buf[..end] == old(buf[..cp]) + Encode(digest, groups)
  {
    end := cp;
    ghost var start, done := buf[..cp], "";
    for k := 0 to |groups|
      invariant AllFit(groups[..k], |digest|) && done == Encode(digest, groups[..k])
      invariant end == cp + |done| <= cp + |Encode(digest, groups)|
      invariant buf[..end] == start + done
    {
      EncodeNext(digest, groups, k);
      ghost var piece := Sextets(Word(digest, groups[k]), groups[k].n);
      ConcatAssoc(start, done, piece);
      end := PutSextets(buf, end, Word(digest, groups[k]), groups[k].n);
      done := done + piece;
    }
    assert groups[..|groups|] == groups;
  }

  lemma {:induction false} EncodeNext(digest: Bytes, groups: seq<Group>, k: nat)
    requires k < |groups| && AllFit(groups, |digest|)
    ensures Encode(digest, groups[..k + 1])
            == Encode(digest, groups[..k]) + Sextets(Word(digest, groups[k]), groups[k].n)
    ensures |Encode(digest, groups[..k + 1])| <= |Encode(digest, groups)|
  {
    assert groups[..k + 1][..k] == groups[..k];
    EncodePrefixLength(digest, groups, k + 1);
  }

  lemma {:induction false} EncodePrefixLength(digest: Bytes, groups: seq<Group>, k: nat)
    requires k <= |groups| && AllFit(groups, |digest|)
    ensures |Encode(digest, groups[..k])| <= |Encode(digest, groups)|
  {
    if k < |groups| {
      var front := groups[..|groups| - 1];
      assert front[..k] == groups[..k];
      EncodePrefixLength(digest, front, k);
    } else {
      assert groups[..k] == groups;
    }
  }

  /** The settings, after the text in the buffer. */
  method PutSettings(buf: array<char>, ghost text: string, st: Salt)
    requires Holds(buf, text) && NoNul(st.text) && |text| + |SettingsText(st)| < buf.Length
    modifies buf
    ensures Holds(buf, text + SettingsText(st))
  {
    var salt := Cut(st.text, SALT_LEN_MAX);
    if st.custom {
      var digits := PrintDec(st.rounds);
      PrintDecDigits(st.rounds);
      Strlcat(buf, text, ROUNDS_PREFIX + digits);
      Strlcat(buf, text + (ROUNDS_PREFIX + digits), "$");
      Strlcat(buf, text + (ROUNDS_PREFIX + digits) + "$", salt);
      PrefixAssoc(text, digits, salt);
    } else {
      Strlcat(buf, text, salt);
    }
  }

  /** The text before the digest: "$", magic, "$", the rounds if custom, and the salt. */
  method PutPrefix(buf: array<char>, magic: string, st: Salt)
    requires NoNul(magic) && NoNul(st.text)
    requires |magic| + 2 + |SettingsText(st)| < buf.Length
    modifies buf
    ensures Holds(buf, "$" + magic + "$" + SettingsText(st))
  {
    buf[0] := '\0';
    Strlcat(buf, "", "$");
    Strlcat(buf, "$", magic);
    Strlcat(buf, "$" + magic, "$");
    PutSettings(buf, "$" + magic + "$", st);
  }

  lemma {:induction false} PrefixAssoc(text: string, digits: string, salt: string)
    ensures text + (ROUNDS_PREFIX + digits) + "$" + salt == text + (ROUNDS_PREFIX + (digits + ("$" + salt)))
  {
  }

  /** A dollar, the encoded digest and the terminator, after the text in the buffer. */
  method PutDigest(buf: array<char>, ghost text: string, cp: nat, digest: Bytes, groups: seq<Group>)
    requires Holds(buf, text) && cp == |text|
    requires AllFit(groups, |digest|) && cp + 1 + |Encode(digest, groups)| < buf.Length
    modifies buf
    ensures Holds(buf, text + "$" + Encode(digest, groups))
  {
    buf[cp] := '$';
    assert buf[..cp + 1] == text + "$";
    var end := PutGroups(buf, cp + 1, digest, groups);
    buf[end] := '\0';
    EncodePrintable(digest, groups);
  }

  /** The salt argument read as `shacrypt` reads it. */
  method ReadSalt(salt: string) returns (st: Option<Salt>)
    ensures st == ParseSalt(salt)
  {
    if ROUNDS_PREFIX <= salt {
      var num := salt[|ROUNDS_PREFIX|..];
      var (srounds, end) := Strtoul(num);
      if end == |num| || num[end] != '$' { return None; }
      return Some(Salt(Clamp(srounds), true, num[end + 1..]));
    }
    return Some(Salt(ROUNDS_DEFAULT, false, salt));
  }

  /** The part of `shacrypt` after the settings are known. */
  method ShaCryptWith(buf: array<char>, h: Digests, passwd: string, magic: string, st: Salt) returns (ok: bool)
    requires buf.Length == SHA_OUT_SIZE && h.Ok() && IsShaMagic(magic) && NoNul(st.text)
    requires |SettingsText(st)| <= (if st.custom then 17 else 0) + |Cut(st.text, SALT_LEN_MAX)|
    modifies buf
    ensures ok <==> passwd != "" && st.text != ""
    ensures ok ==> Holds(buf, "$" + magic + "$" + SettingsText(st) + "$" + ShaCode(h, passwd, magic, st))
  {
    var asciiSalt := Cut(st.text, SALT_LEN_MAX);
    PutPrefix(buf, magic, st);
    var length := 2 + |magic| + |SettingsText(st)|;
    if length > 3 + (if st.custom then 17 else 0) + |asciiSalt| { return false; }
    if passwd == "" || asciiSalt == "" { return false; }
    var digest := ShaDigest(ShaOf(h, magic), DigestSize(magic), passwd, asciiSalt, st.rounds);
    ShaGroupsFit(magic);
    ShaCodeSize(h, passwd, magic, st);
    PutDigest(buf, "$" + magic + "$" + SettingsText(st), length, digest, ShaGroups(magic));
    ok := true;
  }

  /** `shacrypt`. The check on the length of the prefix never fires: a hash is refused
      exactly when `ShaText` refuses it. */
  method ShaCrypt(buf: array<char>, h: Digests, passwd: string, magic: string, salt: string) returns (ok: bool)
    requires buf.Length == SHA_OUT_SIZE && h.Ok()
    requires NoNul(passwd) && NoNul(magic) && NoNul(salt)
    modifies buf
    ensures ok <==> ShaText(h, passwd, magic, salt).Some?
    ensures ok ==> Holds(buf, ShaText(h, passwd, magic, salt).value)
  {
    if |magic| != 1 { return false; }
    if magic[0] != '5' && magic[0] != '6' { return false; }
    assert magic == [magic[0]];
    var st := ReadSalt(salt);
    if st == None { return false; }
    SettingsLength(salt);
    ok := ShaCryptWith(buf, h, passwd, magic, st.value);
  }

  lemma {:induction false} NextSource(dest: nat)
    requires dest < 14
    ensures 6 * dest % 17 == Md5Source(dest) && (6 * dest % 17 + 6) % 17 == 6 * (dest + 1) % 17
  {
  }

  lemma {:induction false} PermutedIs(perm: Bytes, buf: Bytes)
    requires |perm| == |buf| == 16 && perm[14] == buf[5] && perm[15] == buf[11]
    requires forall i :: 0 <= i < 14 ==> perm[i] == buf[Md5Source(i)]
    ensures perm == Permuted(buf)
  {
    forall i | 0 <= i < 16 ensures perm[i] == Permuted(buf)[i] {
      assert i < 14 || Md5Source(i) == if i == 14 then 5 else 11;
    }
  }

  /** The output permutation of `md5crypt`. */
  method PermuteMd5(buf: Bytes) returns (perm: array<Byte>)
    requires |buf| == 16
    ensures fresh(perm) && perm[..] == Permuted(buf)
  {
    perm := new Byte[16](_ => '\0');
    var dest, source := 0, 0;
    while dest < 14
      invariant 0 <= dest <= 14 && source == 6 * dest % 17
      invariant forall i :: 0 <= i < dest ==> perm[i] == buf[Md5Source(i)]
    {
      NextSource(dest);
      perm[dest] := buf[source];
      dest, source := dest + 1, (source + 6) % 17;
    }
    perm[14] := buf[5];
    perm[15] := buf[11];
    PermutedIs(perm[..], buf);
  }

  /** One pass of the hand-unrolled output loop of `md5crypt`. */
  method PutMd5Quad(buf: array<char>, cp: nat, perm: Bytes, k: nat) returns (end: nat)
    requires |perm| == 16 && AllFit(MD5_GROUPS, 16) && k < 5 && cp + 4 <= buf.Length
    modifies buf
    ensures end == cp + 4 && MD5_GROUPS[k].n == 4
    ensures buf[..end] == old(buf[..cp]) + Sextets(Word(perm, MD5_GROUPS[k]), 4)
  {
    var p0, p1, p2 := perm[3 * k] as int, perm[3 * k + 1] as int, perm[3 * k + 2] as int;
    end := Put4(buf, cp, Cov(p2 % 64), Cov(p1 % 16 * 4 + p2 / 64), Cov(p0 % 4 * 16 + p1 / 16), Cov(p0 / 4));
    Md5QuadIsSextets(p0, p1, p2);
    Md5Word(perm, k);
  }

  lemma {:induction false} Md5Word(perm: Bytes, k: nat)
    requires |perm| == 16 && AllFit(MD5_GROUPS, 16) && k < 5
    ensures MD5_GROUPS[k].n == 4
    ensures Word(perm, MD5_GROUPS[k])
            == perm[3 * k] as int * 65536 + perm[3 * k + 1] as int * 256 + perm[3 * k + 2] as int
  {
    assert MD5_GROUPS[k] == Group(3 * k, 3 * k + 1, 3 * k + 2, 4);
  }

  /** The two characters for the last byte. */
  method PutMd5Last(buf: array<char>, cp: nat, perm: Bytes) returns (end: nat)
    requires |perm| == 16 && AllFit(MD5_GROUPS, 16) && cp + 2 <= buf.Length
    modifies buf
    ensures end == cp + 2 && MD5_GROUPS[5].n == 2
    ensures buf[..end] == old(buf[..cp]) + Sextets(Word(perm, MD5_GROUPS[5]), 2)
  {
    var last := perm[15] as int;
    buf[cp], buf[cp + 1] := Cov(last % 64), Cov(last / 64);
    SextetsStep(last / 64, 0, last / 64, 0);
    assert Sextets(last, 2) == [Cov(last % 64), Cov(last / 64)];
    end := cp + 2;
  }

  method PutMd5Quads(buf: array<char>, cp: nat, perm: Bytes) returns (end: nat)
    requires |perm| == 16 && AllFit(MD5_GROUPS, 16) && cp + 22 <= buf.Length
    modifies buf
    ensures end == cp + 22
    ensures buf[..end] == old(buf[..cp]) + Encode(perm, MD5_GROUPS)
  {
    end := cp;
    ghost var start, done := buf[..cp], "";
    for k := 0 to 5
      invariant end == cp + 4 * k
      invariant AllFit(MD5_GROUPS[..k], 16) && done == Encode(perm, MD5_GROUPS[..k])
      invariant buf[..end] == start + done
    {
      EncodeNext(perm, MD5_GROUPS, k);
      end := PutMd5Quad(buf, end, perm, k);
      ConcatAssoc(start, done, Sextets(Word(perm, MD5_GROUPS[k]), 4));
      done := done + Sextets(Word(perm, MD5_GROUPS[k]), 4);
    }
    EncodeNext(perm, MD5_GROUPS, 5);
    assert MD5_GROUPS[..6] == MD5_GROUPS;
    end := PutMd5Last(buf, end, perm);
    ConcatAssoc(start, done, Sextets(Word(perm, MD5_GROUPS[5]), 2));
  }

  /** A dollar, the encoded MD5 digest and the terminator. */
  method PutMd5Digest(buf: array<char>, ghost text: string, cp: nat, perm: Bytes)
    requires Holds(buf, text) && cp == |text| && |perm| == 16 && AllFit(MD5_GROUPS, 16) && cp + 23 < buf.Length
    modifies buf
    ensures Holds(buf, text + "$" + Encode(perm, MD5_GROUPS))
  {
    buf[cp] := '$';
    assert buf[..cp + 1] == text + "$";
    var end := PutMd5Quads(buf, cp + 1, perm);
    buf[end] := '\0';
    EncodePrintable(perm, MD5_GROUPS);
  }

  method Put4(buf: array<char>, cp: nat, c0: char, c1: char, c2: char, c3: char) returns (end: nat)
    requires cp + 4 <= buf.Length
    modifies buf
    ensures end == cp + 4
    ensures buf[..end] == old(buf[..cp]) + [c0, c1, c2, c3]
  {
    buf[cp], buf[cp + 1], buf[cp + 2], buf[cp + 3] := c0, c1, c2, c3;
    end := cp + 4;
  }

  /** The first two digests of `md5crypt` and its thousand rounds. */
  method Md5Digest(hash: string -> Bytes, passwd: string, magic: string, salt: string) returns (buf: Bytes)
    requires Sized(hash, 16)
    ensures |buf| == 16 && buf == Rounds(hash, 1000, Md5DigestA(hash, passwd, magic, salt), passwd, salt)
  {
    var md := passwd;
    if |magic| > 0 { md := md + ("$" + magic + "$"); }
    md := md + salt;
    assert md == passwd + Md5Prefix(magic) + salt;
    buf := hash(passwd + salt + passwd);
    md := FeedStretched(md, buf, |passwd|);
    md := FeedBits(md, |passwd|, "\0", Cut(passwd, 1));
    buf := RunRounds(hash, 1000, hash(md), passwd, salt);
  }

  /** `md5crypt`. Neither of its length checks fires. */
  method Md5Crypt(out: array<char>, h: Digests, passwd: string, magic: string, salt: string) returns (ok: bool)
    requires out.Length == MD5_OUT_SIZE && h.Ok()
    requires NoNul(passwd) && NoNul(magic) && NoNul(salt)
    modifies out
    ensures ok <==> Md5Text(h, passwd, magic, salt).Some?
    ensures ok ==> Holds(out, Md5Text(h, passwd, magic, salt).value)
  {
    out[0] := '\0';
    var asciiSalt := Cut(salt, 8);
    if |magic| > 0 {
      Strlcat(out, "", "$");
      if |magic| > 4 { return false; }
      Strlcat(out, "$", magic);
      Strlcat(out, "$" + magic, "$");
    }
    Strlcat(out, Md5Prefix(magic), asciiSalt);
    var length := |Md5Prefix(magic)| + |asciiSalt|;
    if length > 6 + 8 || |asciiSalt| > 8 { return false; }
    var digest := Md5Digest(h.md5, passwd, magic, asciiSalt);
    var perm := PermuteMd5(digest);
    Md5CodeSize(h, passwd, magic, asciiSalt);
    Md5GroupsCover();
    PutMd5Digest(out, Md5Prefix(magic) + asciiSalt, length, perm[..]);
    ok := true;
  }
}
