# Verified models of the gateway and of the OpenSSL applications it ships with

The repository is an HTTP/WebSocket gateway for card readers (Ruby) with a vendored copy of
OpenSSL 3.4.0. This project models the parts of both where the logic is hardest and proves what
they are meant to guarantee.

| modules | what they model |
|---|---|
| `ShaCryptDigest`, `CryptEncoding`, `PasswdHash` | `openssl passwd`: `shacrypt` and `md5crypt`, from the argument strings to the static output buffer, for arbitrary digest functions |
| `CaSerial`, `CaRevInfo`, `CaPolicy`, `CaDatabase`, `CaRuns`, `CaIssue`, `CaReports`, `CaLoaded` | `openssl ca` and `openssl ocsp`: serial numbers, revocation fields, the policy matcher, the index file with its two indexes, whole runs over it, batches, the CRL and the OCSP answers, and runs that keep the file loadable |
| `CmsSigners` | `openssl cms`: `-signer`, `-inkey` and `-keyopt` in any order, up to the signing loop |
| `CmpSections`, `CmpGenInfo` | `openssl cmp`: section lists read from the right, and the `-geninfo` argument split in place |
| `Gateway`, `GatewayRoutes`, `GatewayReplies`, `GatewayHandlers` | the gateway: a transition system over socket events and HTTP callers, its routes, its Redis lists, and the handlers that take the steps |
| `CText`, `Lists` | C library text functions and filtered lists that several of them use |

Code that works in place is a class or works on arrays, and is proved against functions on values;
the properties are then lemmas about those functions. Texts are sequences of characters without
NUL; bytes are characters below 256. Digest functions, the object and time syntax of the ASN.1
library, configuration values, one-line name printing, clocks and prompts are parameters.

## How the main results fit together

* **Hashes.** `ShaDigest` is proved equal to `CryptDigest`, which follows steps 1 to 21 of "Unix
  crypt using SHA-256 and SHA-512" (Ulrich Drepper) with its repeated sequences defined by
  division and remainder and the bit walk by the binary digits of the length. `RoundShape`,
  `RoundsChain` and `ShortPassword` say what that algorithm feeds without naming its definition.
  `ShaRehash` and `Md5Rehash` close the loop over printing, parsing, clamping and truncating; the
  encodings are injective both ways, and `EncodedAt` gives every character.
* **The CA database.** `RunKeeps` is about every sequence of certify, revoke, add, expire, save and
  restart steps. `IssueRefused` and `StaleNameIsFreedByRestart` say what the stale name index does,
  and `CaLoaded.RunAgrees` that what the program writes before 2050 loads again and is reported
  alike by the CRL and by OCSP. `BatchCertifies` and `BatchFails` say which requests of a batch get
  a certificate, and `IssuedIsAnswered` what OCSP says of it after any run.
* **The gateway.** Runs are arbitrary sequences of events; an event that is not enabled changes
  nothing. LPUSH, DEL, the route write, the route read and BLPOP are separate steps, so handlers
  and callers interleave everywhere the locking lets them. The handlers of one socket run one at a
  time. Handlers of different sockets may overlap here because the code guards them with a mutex;
  one event loop that dispatches all sockets never overlaps them, and `RouteIsLastSender` then
  applies. A `Server` object records the events it has taken and its state is the one that run
  leads to, so every result about runs holds of it.

## Where the code does less than one would expect

* `shacrypt` refuses an empty password or salt, because a zero-size allocation returns NULL
  (`PasswdHash.ShaText`, `PasswdHash.ShaCrypt`).
* OCSP does not find a serial that the load checks accept but that is written in lower case, or as
  a negative number with a zero byte first. `CaReports.LookedUpUnderItsNumber` gives the exact
  condition, `CaReports.OcspAgreesWithCrl` when CRL and OCSP agree, and
  `CaReports.LowerCaseSerialIsMissed` an input on which they do not.
* From 2050 on the revocation time is a GeneralizedTime, which `unpack_revinfo` does not read: the
  row written then cannot be loaded again (`CaReports.RevokedRowOk`, `CaRevInfo.RevocationRoundTrip`).
* OCSP gives no status at all for an expired or suspended row (`CaReports.OneStatus`), and it does
  not notice that a revocation field cannot be unpacked: with a good time and a bad reason or
  argument the answer is "revoked" without a reason, and only a bad time fails
  (`CaReports.OcspFailsExactly`, `CaReports.BadReasonIsAnswered`).
* A name whose row lost validity since the database was loaded is refused until the next load
  (`CaRuns.StaleNameIsFreedByRestart`).
* Revoking a certificate that is not recorded, with bad revocation arguments, leaves it added as a
  valid row in memory (`CaRuns.RevokeUnrecorded`).
* A negative number of rounds wraps around and is clamped to the largest (`PasswdHash.NegativeRounds`).
* A `-geninfo` list may end in a comma (`CmpGenInfo.SpacedRoundTrip`).
* A key option given while `-encrypt` is selected is filed under a recipient's position, and a
  signer may pick it up (`CmsSigners.EncryptOptLeaks`) or lose it (`CmsSigners.OptIsLost`). Over a
  whole command line the parameter list is right exactly when no option is filed under another
  position than the signer's (`CmsSigners.ParamsAreRightExactly`). At signing time every signer has
  exactly its options if each option is filed under the signer being described, or, when none is
  described yet, above all signers; and, if the texts differ, only then
  (`CmsSigners.SignersRightExactly`).
* A section list that ends in a separator yields an extra empty section name, which wins if it
  defines the name (`CmpSections.ItemsReverseSplitExactly`, `CmpSections.RightmostWins`).
* A route points to the socket that registered last, which need not be the one that sent last when
  handlers overlap (`GatewayRoutes.RouteIsLastSender`, `GatewayRoutes.OverlapMisroutes`,
  `GatewayRoutes.LateRegistration`).
* A socket that was the last to register two serials leaves a route behind when it closes
  (`GatewayRoutes.CloseClearsExactly`, `GatewayRoutes.TwoSerialsLeaveRoute`).
* The entry made when a socket opens outlives its close: a close takes such an entry away exactly
  when the closing socket had closed before and the entry is the first with nil, whosever it is
  (`GatewayRoutes.OpenEntrySurvives`, `GatewayRoutes.OpenEntriesStay`,
  `GatewayRoutes.SecondCloseForgetsAnother`).
* A caller that pops after the handler's DEL has missed the message (`GatewayReplies.LateCallerMisses`).
* A serial that is not a JSON string shares the Redis list of the string with the same text, but a
  channel gets its route only from messages whose serial is that string
  (`GatewayReplies.PushServesOldest`, `GatewayRoutes.OnlyNamesRoute`).

## Model

| member | source | states |
|---|---|---|
| `ShaCryptDigest.StretchIsCyclic` | openssl-3.4.0/apps/passwd.c:624-629 | whole blocks and a remainder have the requested length and repeat the digest cyclically |
| `ShaCryptDigest.FeedStretched` | openssl-3.4.0/apps/passwd.c:624-629 | the block loop with its final partial update feeds exactly the cyclic repetition |
| `ShaCryptDigest.FillStretched` | openssl-3.4.0/apps/passwd.c:653-674 | the loop that fills `p_bytes` and `s_bytes` leaves exactly the cyclic repetition in the buffer |
| `ShaCryptDigest.BitLengthBound` | openssl-3.4.0/apps/passwd.c:631-638 | the number of bits walked is the number of binary digits of the length |
| `ShaCryptDigest.FeedBits` | openssl-3.4.0/apps/passwd.c:631-638 | the shift loop feeds, from the lowest bit up, one text per set and another per clear bit of the length |
| `ShaCryptDigest.LowestBitFirst` | openssl-3.4.0/apps/passwd.c:631-638 | the texts for the bits of a length are the one for its lowest bit and then those for its half |
| `ShaCryptDigest.FeedTimes` | openssl-3.4.0/apps/passwd.c:646-665 | the counting loops feed a text the given number of times |
| `ShaCryptDigest.RunRounds` | openssl-3.4.0/apps/passwd.c:676-697 | after n passes the buffer is the n-fold round digest, with the mod 2, 3 and 7 choices in order |
| `ShaCryptDigest.RoundShape` | openssl-3.4.0/apps/passwd.c:676-697 | what a round feeds, by length and place: P or the last digest first and last by parity, S after the first unless 3 divides the round, another P before the last unless 7 does |
| `ShaCryptDigest.RoundUsesSalt` | openssl-3.4.0/apps/passwd.c:683-686 | a round depends on the salt sequence exactly when 3 does not divide its number |
| `ShaCryptDigest.RoundsChain` | openssl-3.4.0/apps/passwd.c:676-697 | the result is the end of every chain of digests whose k-th link is round k, counted from 0 |
| `ShaCryptDigest.ShaDigest` | openssl-3.4.0/apps/passwd.c:608-697 | for every password, salt and digest function the code computes the final digest of the published algorithm |
| `ShaCryptDigest.ShortPassword` | openssl-3.4.0/apps/passwd.c:608-697 | the whole computation written out for every password of two characters, every salt no longer than the digest, and two rounds |
| `CryptEncoding.CovMatchesTable` | openssl-3.4.0/apps/passwd.c:25-35 | the character for each value from 0 to 63 is the one in the table |
| `CryptEncoding.EncodeInjective` | openssl-3.4.0/apps/passwd.c:707-757 | a digest is recoverable whenever the groups use every byte position |
| `CryptEncoding.EncodedAt` | openssl-3.4.0/apps/passwd.c:710-718 | character 4j + i holds bits 6i to 6i + 5 of the word of group j |
| `CryptEncoding.WordBytes` | openssl-3.4.0/apps/passwd.c:710-718 | the bytes of a group, highest first, are the base-256 digits of its word |
| `CryptEncoding.Sha256Order` | openssl-3.4.0/apps/passwd.c:721-733 | the byte positions of every SHA-256 group in closed form |
| `CryptEncoding.Sha512Order` | openssl-3.4.0/apps/passwd.c:734-757 | the byte positions of every SHA-512 group in closed form |
| `CryptEncoding.Md5Order` | openssl-3.4.0/apps/passwd.c:464-474 | the permuted MD5 bytes are taken three at a time |
| `CryptEncoding.Sha256EncodingInjective` | openssl-3.4.0/apps/passwd.c:721-733 | 43 characters, equal exactly for equal 32-byte digests |
| `CryptEncoding.Sha512EncodingInjective` | openssl-3.4.0/apps/passwd.c:734-757 | 86 characters, equal exactly for equal 64-byte digests |
| `CryptEncoding.Md5SourceIsPermutation` | openssl-3.4.0/apps/passwd.c:449-453 | the walk by 6 modulo 17 with its two fix-ups reaches every byte, at a position given outright |
| `CryptEncoding.Md5QuadIsSextets` | openssl-3.4.0/apps/passwd.c:464-474 | the hand-unrolled packing is the general 24-bit packing |
| `CryptEncoding.Md5EncodingInjective` | openssl-3.4.0/apps/passwd.c:449-475 | 22 characters, equal exactly for equal 16-byte digests |
| `PasswdHash.RoundsAreClamped` | openssl-3.4.0/apps/passwd.c:547-563 | for every number, however large, "rounds=N$" and a salt give that number brought into 1000 to 999999999, and the whole salt |
| `PasswdHash.NegativeRounds` | openssl-3.4.0/apps/passwd.c:547-563 | a negative number of rounds wraps around and asks for the most |
| `PasswdHash.MissingRounds` | openssl-3.4.0/apps/passwd.c:547-563 | no number asks for the fewest |
| `PasswdHash.RoundsNeedDollar` | openssl-3.4.0/apps/passwd.c:547-563 | without a dollar after the number the argument is refused |
| `PasswdHash.PlainSalt` | openssl-3.4.0/apps/passwd.c:547-578 | any other argument is the salt, with 5000 rounds that are not printed |
| `PasswdHash.PlainHash` | openssl-3.4.0/apps/passwd.c:496-775 | the hash for a plain salt written out for both digests |
| `PasswdHash.CustomHash` | openssl-3.4.0/apps/passwd.c:586-606 | with a number of rounds, the number used is printed |
| `PasswdHash.NoHash` | openssl-3.4.0/apps/passwd.c:526-671 | an empty password or salt and an unknown magic are refused |
| `PasswdHash.SettingsAreFixed` | openssl-3.4.0/apps/passwd.c:547-606 | the printed settings parse to the same settings, truncation included |
| `PasswdHash.ShaRehash` | openssl-3.4.0/apps/passwd.c:496-775 | hashing again with the settings cut out of a hash gives that hash, for every accepted salt |
| `PasswdHash.Md5Rehash` | openssl-3.4.0/apps/passwd.c:314-489 | the same for the MD5 hashes |
| `PasswdHash.ShortMd5Password` | openssl-3.4.0/apps/passwd.c:369-475 | the MD5 hash written out for every password of two characters |
| `PasswdHash.ShaTextFits` | openssl-3.4.0/apps/passwd.c:510 | every hash with its terminator fits 124 bytes, and fills them exactly for SHA-512 with nine digits of rounds and 16 characters of salt |
| `PasswdHash.Md5TextFits` | openssl-3.4.0/apps/passwd.c:317 | every MD5 hash with its terminator takes at most 38 of the 41 bytes, and 38 exactly for a magic of four characters and a full-length salt |
| `PasswdHash.ShaTextDeterminesDigest` | openssl-3.4.0/apps/passwd.c:707-761 | two hashes with the same settings are equal exactly when the final digests are |
| `PasswdHash.PutPrefix` | openssl-3.4.0/apps/passwd.c:586-606 | the appends leave the whole prefix in the buffer, nothing truncated |
| `PasswdHash.PutGroups` | openssl-3.4.0/apps/passwd.c:710-757 | writing group after group leaves the encoding after what was there |
| `PasswdHash.PermuteMd5` | openssl-3.4.0/apps/passwd.c:449-453 | the in-place permutation of the 16 bytes |
| `PasswdHash.PutMd5Quads` | openssl-3.4.0/apps/passwd.c:464-474 | the output loop writes the encoding of the permuted digest |
| `PasswdHash.Md5Digest` | openssl-3.4.0/apps/passwd.c:369-436 | the digest of the MD5 scheme, with its own bit walk and 1000 rounds |
| `PasswdHash.ShaCrypt` | openssl-3.4.0/apps/passwd.c:496-775 | succeeds exactly when there is a hash, and then the static buffer holds it; no length check fires |
| `PasswdHash.Md5Crypt` | openssl-3.4.0/apps/passwd.c:314-489 | the same for `md5crypt` |
| `CText.Strlcat` | openssl-3.4.0/crypto/o_str.c:74-92 | appends what fits and keeps the terminator |
| `CText.ScanPrinted` | openssl-3.4.0/apps/passwd.c:547-563 | a decimal number, printed and scanned after any white space and sign, is that number, and the scan stops after it |
| `CText.UpperLetters` | openssl-3.4.0/crypto/ctype.c:303-308 | the 26 letters change case and nothing else does |
| `CaSerial.CheckSerial` | openssl-3.4.0/apps/ca.c:707-725 | the load check accepts exactly the well-formed serials |
| `CaSerial.RowSerialReads` | openssl-3.4.0/crypto/bn/bn_conv.c:15-60 | a printed serial passes the check and reads back as its number |
| `CaSerial.StripComparesValues` | openssl-3.4.0/apps/lib/apps.c:1465-1473 | on non-negative upper-case serials the index compares numbers |
| `CaSerial.SameSerialSameValue` | openssl-3.4.0/apps/lib/apps.c:1465-1473 | serials the index finds equal are the same number |
| `CaSerial.FoundUnderItsNumber` | openssl-3.4.0/apps/ocsp.c:1176-1197 | a checked serial equals the printing of its own number exactly when it is well printed |
| `CaSerial.StatusKeyMatches` | openssl-3.4.0/apps/ca.c:2203-2233 | the key built from a hexadecimal query equals a recorded serial exactly when the numbers are equal |
| `CaRevInfo.PrintedTimeIsUtc` | openssl-3.4.0/crypto/asn1/a_time.c:76-260 | a printed time passes the UTCTime check exactly from 1950 to 2049 |
| `CaRevInfo.PrintedDate` | openssl-3.4.0/crypto/asn1/a_time.c:265-318 | the century, year, month and day of a printed time at their places |
| `CaRevInfo.PrintedClock` | openssl-3.4.0/crypto/asn1/a_time.c:265-318 | the hour, minute and second at theirs |
| `CaRevInfo.UtcTimeForms` | openssl-3.4.0/crypto/asn1/a_time.c:76-260 | for every good date: which endings with seconds, zone and offset are accepted and which are not |
| `CaRevInfo.RevocationRoundTrip` | openssl-3.4.0/apps/ca.c:2341-2423 | the field written for a revocation unpacks to the same time, the RFC 5280 section 5.3.1 reason and the argument whole, exactly if the time is a UTCTime |
| `CaRevInfo.FieldTexts` | openssl-3.4.0/apps/ca.c:2341-2423 | the field without a reason and with each of the three arguments, letter by letter, and when it is refused |
| `CaRevInfo.ReasonField` | openssl-3.4.0/apps/ca.c:2349-2366 | a reason of any case is written as listed; only the first eight can be asked for |
| `CaRevInfo.ReasonArguments` | openssl-3.4.0/apps/ca.c:2571-2621 | reading: an argument after a plain reason is ignored, the other three need a good one |
| `CaRevInfo.UnknownReason` | openssl-3.4.0/apps/ca.c:2571-2621 | a text that is no reason is refused, with or without an argument |
| `CaRevInfo.MakeRevocationStr` | openssl-3.4.0/apps/ca.c:2341-2423 | builds that field or refuses; the buffer is allocated to the exact size and filled to the end |
| `CaRevInfo.ChooseReason` | openssl-3.4.0/apps/ca.c:2349-2397 | which reason text and argument each revocation type gets, and when it is refused |
| `CaRevInfo.UnpackRevinfo` | openssl-3.4.0/apps/ca.c:2528-2637 | splits at two commas and decodes time, reason and argument |
| `CaRevInfo.DecodeReason` | openssl-3.4.0/apps/ca.c:2571-2621 | index 7 becomes 8, the pseudo-reasons 6, 1 and 2, with their arguments checked |
| `CaPolicy.GetIndex` | openssl-3.4.0/apps/ca.c:1564-1571 | the first entry of a type after a position |
| `CaPolicy.DecideEntry` | openssl-3.4.0/apps/ca.c:1575-1629 | when an entry, or the lack of one, passes a policy line |
| `CaPolicy.ApplyLine` | openssl-3.4.0/apps/ca.c:1557-1639 | the inner goto loop ends, and appends all request entries of the type in order exactly when the line holds |
| `CaPolicy.ApplyPolicy` | openssl-3.4.0/apps/ca.c:1549-1640 | succeeds exactly when every line is well formed and holds; the subject is line by line the request's entries |
| `CaPolicy.SubjectEntries` | openssl-3.4.0/apps/ca.c:1549-1640 | an entry is in the subject exactly if the request has it and some line names its type |
| `CaPolicy.DeleteEmails` | openssl-3.4.0/apps/ca.c:1748-1766 | the deleting loop leaves exactly the other entries, in order |
| `CaPolicy.BuildSubject` | openssl-3.4.0/apps/ca.c:1549-1766 | the subject of the certificate with `preserve` and e-mail removal |
| `CaPolicy.CertSubjectEntries` | openssl-3.4.0/apps/ca.c:1549-1766 | an entry is in the subject exactly if the request has it, it is preserved or its type is named, and e-mail is wanted or it is none |
| `CaPolicy.SubjectRefused` | openssl-3.4.0/apps/ca.c:1549-1640 | refused exactly when some line has an unknown field or rule, misses a type it needs, or finds an entry the CA does not match |
| `CaPolicy.OrderWithinType` | openssl-3.4.0/apps/ca.c:1557-1639 | entries of a type stand in request order, once per line that names the type |
| `CaPolicy.OrderBetweenTypes` | openssl-3.4.0/apps/ca.c:1549-1640 | entries of different types stand in the order of the lines |
| `CaPolicy.SubjectOrder` | openssl-3.4.0/apps/ca.c:1642-1766 | with `preserve` the order is that of the request, and e-mail entries are taken out of either order |
| `CaPolicy.NoEmailSurvives` | openssl-3.4.0/apps/ca.c:1748-1766 | without `email_in_dn` no e-mail entry is left and nothing is invented |
| `CaDatabase.NoTwoValidShareName` | openssl-3.4.0/apps/ca.c:1804-1823 | under unique subjects valid rows differ in name even with a stale index |
| `CaDatabase.RowNames` | openssl-3.4.0/apps/ca.c:1789-1802 | a subject is the name of its row, and certificates without one never clash by name |
| `CaDatabase.SerialFound` | openssl-3.4.0/crypto/txt_db/txt_db.c:127-145 | the one row with a serial is the one looked up |
| `CaDatabase.InsertKeeps` | openssl-3.4.0/crypto/txt_db/txt_db.c:234-277 | an insertion keeps both indexes consistent and all rows |
| `CaDatabase.RevokeKeeps` | openssl-3.4.0/apps/ca.c:2093-2197 | revoking keeps the indexes, loses no row and moves statuses only forward |
| `CaDatabase.ExpireEvolves` | openssl-3.4.0/apps/ca.c:2266-2314 | a valid row is expired exactly when its end date has come; nothing else changes |
| `CaDatabase.ExpiredRow` | openssl-3.4.0/apps/ca.c:2266-2314 | row by row: expired exactly if valid, due and after no malformed date, and otherwise as it was |
| `CaDatabase.ExpireKeeps` | openssl-3.4.0/apps/ca.c:2266-2314 | expiring keeps the indexes consistent and all rows |
| `CaDatabase.IndexedWellFormed` | openssl-3.4.0/apps/lib/apps.c:1736-1757 | a freshly indexed file is consistent |
| `CaDatabase.Database.IndexIndex` | openssl-3.4.0/apps/lib/apps.c:1736-1757 | indexing succeeds exactly when serials and, if unique, the names of valid rows are distinct |
| `CaDatabase.Database.InsertRow` | openssl-3.4.0/crypto/txt_db/txt_db.c:234-277 | refused exactly on a clash with a qualifying index entry |
| `CaDatabase.Database.Clashes` | openssl-3.4.0/apps/ca.c:1804-1823 | the two lookups find a clash exactly when the certificate cannot be recorded |
| `CaDatabase.Database.CertifyCert` | openssl-3.4.0/apps/ca.c:1903-1928 | after them the insertion cannot fail |
| `CaDatabase.Database.DoRevoke` | openssl-3.4.0/apps/ca.c:2093-2197 | the recursive code does what `Revoke` says and calls itself at most once, exactly when it says |
| `CaDatabase.Database.UpdateDb` | openssl-3.4.0/apps/ca.c:2266-2314 | expires the due rows in place, up to the first malformed date; returns -1 there, else the number of rows whose status changed |
| `CaRuns.NextKeeps` | openssl-3.4.0/apps/ca.c:2093-2197 | one step of any kind keeps the invariant and the file's rows |
| `CaRuns.RunKeeps` | openssl-3.4.0/apps/ca.c:1804-1928 | over every run no row is lost, serial, name and dates stay, statuses only move towards revoked, serials stay distinct, valid names stay distinct |
| `CaRuns.RevokedIsFinal` | openssl-3.4.0/apps/ca.c:2177-2180 | a revoked row never changes again |
| `CaRuns.IssuedStaysFound` | openssl-3.4.0/apps/ca.c:1775-1928 | a certificate issued and saved is found by its serial, passes the name check and answers every status query for its number, after any run |
| `CaRuns.IssueRefused` | openssl-3.4.0/apps/ca.c:1804-1823 | refused exactly when the serial is in use or an indexed row, valid or stale, has the name |
| `CaRuns.IssueAppends` | openssl-3.4.0/apps/ca.c:1903-1928 | otherwise its row, field by field, is appended |
| `CaRuns.AddValid` | openssl-3.4.0/apps/ca.c:2128-2163 | `-valid` adds that row exactly when issuing would not be refused, and else changes nothing |
| `CaRuns.RevokeUnrecorded` | openssl-3.4.0/apps/ca.c:2128-2163 | revoking an unrecorded certificate adds it unless its name is taken; with bad arguments the valid row stays |
| `CaRuns.RecordIsFound` | openssl-3.4.0/apps/ca.c:2104-2126 | a recorded certificate is found by serial, passes the name check, and answers every hexadecimal status query for its number |
| `CaRuns.RecordStaysFound` | openssl-3.4.0/apps/ca.c:2104-2170 | and stays so after any run |
| `CaRuns.RevokeRecorded` | openssl-3.4.0/apps/ca.c:2170-2192 | revoking a certificate whose serial is recorded succeeds exactly with its name, good arguments and no earlier revocation, and changes that row alone |
| `CaRuns.SavedIsReloaded` | openssl-3.4.0/apps/lib/apps.c:1736-1757 | what is saved is what a restart finds and indexes |
| `CaRuns.UnsavedIsLost` | openssl-3.4.0/apps/lib/apps.c:1736-1757 | whatever was done without saving is gone after a restart |
| `CaRuns.UpdateExpires` | openssl-3.4.0/apps/ca.c:2266-2314 | an update in any run expires exactly the valid rows that are due before a malformed date, in memory only |
| `CaRuns.IssuedStaysValid` | openssl-3.4.0/apps/ca.c:1903-1928 | an issued and saved certificate keeps its row until it is revoked or the database is updated |
| `CaRuns.StaleNameIsFreedByRestart` | openssl-3.4.0/apps/lib/apps.c:1475-1478 | a name held by a row that lost validity is refused now and accepted after a reload |
| `CaRuns.StaleNameInRun` | openssl-3.4.0/apps/lib/apps.c:1736-1757 | the same in a run that saves and restarts |
| `CaRuns.IndexedStaysIndexed` | openssl-3.4.0/apps/lib/apps.c:1736-1757 | an indexed row stays indexed under its name until a reload |
| `CaIssue.CertifyRequest` | openssl-3.4.0/apps/ca.c:1332-1388 | the code has the outcome of `Outcome`, and its certificate on success |
| `CaIssue.OutcomeExactly` | openssl-3.4.0/apps/ca.c:1332-1388 | a request fails hard exactly if unreadable, a badly signed `-spkac`, refused by the policy or in clash; else it gets its row exactly if readable and not declined; only that changes the database |
| `CaIssue.IssueAdds` | openssl-3.4.0/apps/ca.c:928-1012 | one valid row per certificate, in order, with consecutive serials |
| `CaIssue.BatchCertifies` | openssl-3.4.0/apps/ca.c:928-1012 | a batch that does not fail gives a certificate to every readable request that was not declined, in order, with consecutive serials, and to no other |
| `CaIssue.BatchFails` | openssl-3.4.0/apps/ca.c:928-1012 | a batch fails exactly when some request fails hard on what those before it left |
| `CaIssue.IssueBatch` | openssl-3.4.0/apps/ca.c:928-1046 | what is saved: nothing after a hard failure or a declined commit, else the index and, if a serial file is configured, the next serial |
| `CaIssue.FailureSticks` | openssl-3.4.0/apps/ca.c:928-1012 | nothing is issued after a hard failure |
| `CaIssue.CommittedBatch` | openssl-3.4.0/apps/ca.c:1018-1046 | a committed batch saves the old rows, then the new ones, and a serial above all of them |
| `CaIssue.BatchIsRun` | openssl-3.4.0/apps/ca.c:928-1012 | issuing a batch is the run that issues its certificates one by one |
| `CaIssue.BatchStaysFound` | openssl-3.4.0/apps/ca.c:1018-1046 | every certificate of a committed batch is found by serial, name and status query after any run |
| `CaReports.CheckRows` | openssl-3.4.0/apps/ca.c:690-726 | the load checks accept exactly the well-formed files |
| `CaReports.RowRefused` | openssl-3.4.0/apps/ca.c:690-726 | the four reasons for which a row is refused |
| `CaReports.AddedRowOk` | openssl-3.4.0/apps/ca.c:1903-1928 | a new row passes them and has a well-printed serial |
| `CaReports.RevokedRowOk` | openssl-3.4.0/apps/ca.c:2183-2190 | a revoked row passes them exactly before 2050 |
| `CaReports.MakeRevoked` | openssl-3.4.0/apps/ca.c:2433-2485 | fails exactly on a bad field, and says exactly when the entry has extensions |
| `CaReports.AskedExtensions` | openssl-3.4.0/apps/ca.c:2433-2485 | an entry has extensions exactly if the revocation came with a reason of any kind |
| `CaReports.MakeCrl` | openssl-3.4.0/apps/ca.c:1183-1243 | the entries are those of the revoked rows, in file order before the final sort; version 2 exactly with a CRL extension section, a CRL number or an entry extension |
| `CaReports.CrlListsRevoked` | openssl-3.4.0/apps/ca.c:1183-1243 | an entry is on the CRL exactly when a revoked row says it |
| `CaReports.OcspStatuses` | openssl-3.4.0/apps/ocsp.c:1057-1137 | one status per requested id that gets one, in order; fails exactly without ids or when an id finds a revoked row whose time cannot be read |
| `CaReports.StatusesExactly` | openssl-3.4.0/apps/ocsp.c:1057-1137 | a status is in the response exactly for a requested id that gets that answer |
| `CaReports.StatusesInOrder` | openssl-3.4.0/apps/ocsp.c:1057-1137 | if every id gets an answer, they are in the order of the ids |
| `CaReports.OneStatus` | openssl-3.4.0/apps/ocsp.c:1078-1135 | unknown issuer, missing row, valid, revoked with or without a readable reason, and the rows that get none; fails exactly on a bad time |
| `CaReports.OcspFailsExactly` | openssl-3.4.0/apps/ocsp.c:1109-1124 | a status fails exactly for a revoked row whose time is not a UTCTime |
| `CaReports.BadReasonIsAnswered` | openssl-3.4.0/apps/ocsp.c:1116-1124 | a row with a good time and an empty reason gives no CRL entry and the answer "revoked" without a reason |
| `CaReports.BuildStatusKey` | openssl-3.4.0/apps/ca.c:2203-2228 | pads an odd query with one zero and upper-cases it in place |
| `CaReports.GetStatus` | openssl-3.4.0/apps/ca.c:2199-2264 | reports the type of the row found under that key |
| `CaReports.LookedUpUnderItsNumber` | openssl-3.4.0/apps/ocsp.c:1176-1197 | a loaded row is the one found under its own number exactly when its serial is well printed |
| `CaReports.OcspAgreesWithCrl` | openssl-3.4.0/apps/ocsp.c:1089-1135 | OCSP says revoked, with the same data, for exactly the CRL's entries if and only if each comes from a well-printed row |
| `CaReports.OcspNeverFails` | openssl-3.4.0/apps/ocsp.c:1109-1124 | no answer fails on a loaded file |
| `CaReports.GoodIsValid` | openssl-3.4.0/apps/ocsp.c:1105-1108 | good is said only of a number that a valid row has |
| `CaReports.GoodExactly` | openssl-3.4.0/apps/ocsp.c:1105-1108 | on a loaded file, good exactly for a known issuer and a number that a valid, well-printed row has |
| `CaReports.UnknownExactly` | openssl-3.4.0/apps/ocsp.c:1092-1104 | unknown exactly for an unknown issuer or a number no well-printed row has |
| `CaReports.RowIsAnswered` | openssl-3.4.0/apps/ocsp.c:1092-1135 | for a well-printed row: good exactly if valid, nothing exactly if neither valid nor revoked, and revoked with its data if revoked |
| `CaReports.BadlyPrintedIsMissed` | openssl-3.4.0/apps/ocsp.c:1176-1197 | a badly printed revoked row is on the CRL and unknown to OCSP |
| `CaReports.LowerCaseSerialIsMissed` | openssl-3.4.0/apps/ca.c:707-725 | the load checks let such a row in |
| `CaLoaded.RunLoadable` | openssl-3.4.0/apps/ca.c:690-726 | from a loadable file every run with times from 1950 to 2049 keeps the rows in memory and in the file loadable and well printed |
| `CaLoaded.RunAgrees` | openssl-3.4.0/apps/ca.c:690-726 | so after every such run the file passes the load checks, and OCSP and the CRL agree on it |
| `CaLoaded.RevocationIsReported` | openssl-3.4.0/apps/ca.c:2181-2190 | a certificate revoked from 1950 to 2049 and saved is reported, by OCSP and on the CRL, with the reason, time and argument asked for, after any run |
| `CaLoaded.RecordIsAnswered` | openssl-3.4.0/apps/ocsp.c:1092-1135 | the same for the number of a recorded certificate, on any file with distinct serials |
| `CaLoaded.IssuedIsAnswered` | openssl-3.4.0/apps/ocsp.c:1092-1135 | after any run an issued and saved certificate is in the file, and is answered good while valid and nothing once expired |
| `CaLoaded.IssuedIsGood` | openssl-3.4.0/apps/ocsp.c:1105-1108 | it is answered good as long as it is not revoked and the database is not updated |
| `CmsSigners.DescsSnoc` | openssl-3.4.0/apps/cms.c:585-623 | reading pairs with lookahead equals completing or starting one description per name |
| `CmsSigners.ListsOfAccepted` | openssl-3.4.0/apps/cms.c:585-623 | the signers are the `-signer` arguments in order, and every `-inkey` argument is used once and in order |
| `CmsSigners.PairsAreSigned` | openssl-3.4.0/apps/cms.c:585-623 | a line with both orders of key and certificate and a lone certificate, from its names to its signers and keys |
| `CmsSigners.OptsFollowSigner` | openssl-3.4.0/apps/cms.c:644-675 | a line with options for two signers: each is to sign with its own, in order |
| `CmsSigners.TwoKeysAreRefused` | openssl-3.4.0/apps/cms.c:605-623 | two keys at the start are refused whatever follows |
| `CmsSigners.EarlyOptIsRefused` | openssl-3.4.0/apps/cms.c:644-658 | so is an option at the start |
| `CmsSigners.NoSignerIsRefused` | openssl-3.4.0/apps/cms.c:751-773 | so is a line without a certificate |
| `CmsSigners.OtherOperation` | openssl-3.4.0/apps/cms.c:751-773 | so, for signing, is a line that selects another operation last or none |
| `CmsSigners.Options.OnSigner` | openssl-3.4.0/apps/cms.c:585-601 | a signer completes the pending description or flushes it into both lists |
| `CmsSigners.Options.OnInkey` | openssl-3.4.0/apps/cms.c:605-623 | the same for a key; refused exactly for a second key without a signer |
| `CmsSigners.Options.OnKeyopt` | openssl-3.4.0/apps/cms.c:644-675 | files the option under the computed position, refused exactly when there is none |
| `CmsSigners.Options.Finish` | openssl-3.4.0/apps/cms.c:751-773 | the final checks accept exactly the accepted lines; the lists are parallel and complete |
| `CmsSigners.Options.SignAll` | openssl-3.4.0/apps/cms.c:1096-1128 | each signer with its key and the first parameters filed for its position |
| `CmsSigners.ParamsAreRight` | openssl-3.4.0/apps/cms.c:644-675 | the parameters increase strictly by position and hold for each signer exactly the options given while it was described |
| `CmsSigners.ParamsAreRightExactly` | openssl-3.4.0/apps/cms.c:644-675 | over every whole line whose options have a key, the parameters are right if and only if each option was filed under the signer being described |
| `CmsSigners.EncryptOptLeaks` | openssl-3.4.0/apps/cms.c:628-675 | a recipient's option applied to a signer |
| `CmsSigners.UnusedOptIsHarmless` | openssl-3.4.0/apps/cms.c:628-675 | a line whose option comes before any signer and is filed above all of them: the signer has its options, none, though the option was not filed under it |
| `CmsSigners.OptIsLost` | openssl-3.4.0/apps/cms.c:628-675 | the same option given after the signer: it is filed where no signer is, and its signer does not get it |
| `CmsSigners.FiledRightReaches` | openssl-3.4.0/apps/cms.c:644-675 | options filed under the signer being described reach their signers |
| `CmsSigners.SignersRightExactly` | openssl-3.4.0/apps/cms.c:644-675 | over every whole line whose options have a key, every signer has exactly its options if the options reach their signers, and, for distinct texts, only then |
| `CmsSigners.Sign` | openssl-3.4.0/apps/cms.c:585-1128 | from the arguments to the signatures: accepted exactly when described completely, each signer with its own key or itself, and with its own options if they reach it and, for distinct texts, only then |
| `CmpSections.ItemsReverseSplit` | openssl-3.4.0/apps/cmp.c:2525-2557 | walking back gives the reverse of the forward split, each name cut to 40 characters |
| `CmpSections.ItemsReverseSplitExactly` | openssl-3.4.0/apps/cmp.c:2525-2557 | and does so exactly when the list does not end in a separator |
| `CmpSections.SepsAre` | openssl-3.4.0/apps/cmp.c:2525-2557 | the separators are the comma and the six white-space characters |
| `CmpSections.TwoSections` | openssl-3.4.0/apps/cmp.c:2525-2557 | two names around any separators: read forwards and backwards |
| `CmpSections.RightmostWins` | openssl-3.4.0/apps/cmp.c:2559-2570 | the first section found is the rightmost that defines the name, or the empty one after a trailing separator |
| `CmpSections.RightmostIs` | openssl-3.4.0/apps/cmp.c:2559-2570 | the value is that of the rightmost section that defines the name, looked up by its first 40 characters |
| `CmpSections.NoneDefined` | openssl-3.4.0/apps/cmp.c:2559-2570 | there is none exactly when no section defines it |
| `CmpSections.PrevItem` | openssl-3.4.0/apps/cmp.c:2525-2557 | one step back: the item is in the static buffer, and the new end is before it and its separators |
| `CmpSections.ConfGetString` | openssl-3.4.0/apps/cmp.c:2559-2570 | the lookup loop returns that value |
| `CmpGenInfo.PrintParseRoundTrip` | openssl-3.4.0/apps/cmp.c:1990-2081 | parsing the printing of any non-empty list of writable items returns the list |
| `CmpGenInfo.SpacedRoundTrip` | openssl-3.4.0/apps/cmp.c:1999-2001 | the same with white space in front of any item, and with a comma at the end |
| `CmpGenInfo.NoColon` | openssl-3.4.0/apps/cmp.c:2002-2005 | an argument without a colon is refused |
| `CmpGenInfo.ItemRefused` | openssl-3.4.0/apps/cmp.c:2007-2056 | any other item is refused exactly for its OID, the lack of a known word, or a bad number |
| `CmpGenInfo.WordsAre` | openssl-3.4.0/apps/cmp.c:2018-2044 | the words in either case |
| `CmpGenInfo.StrtolPrinted` | openssl-3.4.0/apps/cmp.c:2018-2024 | a printed number reads back, saturated to a long |
| `CmpGenInfo.StrtolReadsNumbers` | openssl-3.4.0/apps/cmp.c:2018-2024 | `strtol` reads every printed long back and stops after it |
| `CmpGenInfo.ReadOid` | openssl-3.4.0/apps/cmp.c:2001-2008 | the text before the colon, overwritten in place without touching what follows |
| `CmpGenInfo.ReadValue` | openssl-3.4.0/apps/cmp.c:2018-2056 | the number or the text up to the comma |
| `CmpGenInfo.HandleGeninfo` | openssl-3.4.0/apps/cmp.c:1990-2081 | the in-place loop ends and returns what parsing the original text gives |
| `Gateway.StoreGet` | app/services/websocket_handler.rb:26-52 | assigning a key of the hash changes that key alone |
| `Gateway.ForgetGet` | app/services/websocket_handler.rb:80-83 | a close removes the first key with the value and no other |
| `GatewayRoutes.RouteIsLastRegistration` | app/services/websocket_handler.rb:48-52 | in every run a present route was written by the last registration of its serial, for a message of that socket |
| `GatewayRoutes.OpenSocketHasRoute` | app/services/websocket_handler.rb:48-52 | in every run an open socket has the route of a serial exactly when it registered the serial last |
| `GatewayRoutes.RouteIsLastSender` | app/services/websocket_handler.rb:39-52 | if handlers of one serial do not overlap, a present route points to the last sender |
| `GatewayRoutes.OverlapMisroutes` | app/services/websocket_handler.rb:39-52 | from every state in which a message may be pushed while an open socket's handler of the serial is under way, the later handler may overtake, and the route then points to the earlier sender |
| `GatewayRoutes.LateRegistration` | app/services/websocket_handler.rb:39-52 | a run from the start after which no handler is under way and the route is not the last sender's |
| `GatewayRoutes.CloseKeepsOtherRoutes` | app/services/websocket_handler.rb:78-85 | a close never changes another socket's route, and a second close changes no route |
| `GatewayRoutes.CloseClears` | app/services/websocket_handler.rb:78-85 | a close leaves no route to the socket exactly when at most one serial was routed to it |
| `GatewayRoutes.CloseClearsExactly` | app/services/websocket_handler.rb:78-85 | over every run, a first close leaves no route to the socket exactly when it was the last to register at most one serial |
| `GatewayRoutes.ClosedSocketsHaveNoRoute` | app/services/websocket_handler.rb:26-85 | if no socket used two serials, no run leaves a route to a closed socket |
| `GatewayRoutes.TwoSerialsLeaveRoute` | app/services/websocket_handler.rb:78-85 | in every run, a socket that registered two serials last keeps the route of one of them when it closes |
| `GatewayRoutes.StaleRouteIsReachable` | app/services/websocket_handler.rb:26-85 | such a state is reachable |
| `GatewayRoutes.OpenEntrySurvives` | app/services/websocket_handler.rb:80-83 | a close takes away the entry of an opened socket exactly when the closing socket had closed before and the entry is the first with nil |
| `GatewayRoutes.OpenEntriesStay` | app/services/websocket_handler.rb:26-32 | while no socket closes twice, the entry of every socket ever opened is there |
| `GatewayRoutes.SecondCloseForgetsAnother` | app/services/websocket_handler.rb:78-85 | a run in which a second close removes the entry of another, open socket |
| `GatewayRoutes.CommandNeedsRoute` | app/helpers/handle_ws_command_helper.rb:2-6 | a command is sent exactly when the channel has a route, to the socket that registered it last; there is a route whenever that socket is open; otherwise the error reply comes at once |
| `GatewayRoutes.OnlyNamesRoute` | app/helpers/handle_ws_command_helper.rb:2-4 | a channel has no route as long as no message had that very string as its serial |
| `GatewayRoutes.RegisterLeaves` | app/services/websocket_handler.rb:48-52 | a registration writes the route of its serial, nil after a close, and no other |
| `GatewayReplies.RunInv` | app/services/websocket_handler.rb:39-44 | the invariant of lists, queue and replies over every run |
| `GatewayReplies.ListsAreShort` | app/services/websocket_handler.rb:39-44 | a response list holds at most one message, and only between its LPUSH and DEL under the mutex |
| `GatewayReplies.DeliveredOnce` | app/helpers/handle_ws_command_helper.rb:9-17 | no message is in two replies |
| `GatewayReplies.DeliveredWhileHeld` | app/helpers/handle_ws_command_helper.rb:9-17 | a message is delivered only while its handler holds the mutex, and is then the newest of all |
| `GatewayReplies.PushServesOldest` | app/services/websocket_handler.rb:39-44 | a message goes to the caller blocked longest on its list, and the list stays empty |
| `GatewayReplies.RepliesInOrder` | server.rb:57-78 | a batch collects messages of its own reader, in the order they were pushed, and never more replies than items |
| `GatewayReplies.PushLeaves` | app/services/websocket_handler.rb:39-41 | after LPUSH the message is held, and in its list unless a caller was blocked there |
| `GatewayReplies.DelLeaves` | app/services/websocket_handler.rb:42-44 | after DEL the mutex is free and every response list is empty |
| `GatewayReplies.PopLeaves` | app/helpers/handle_ws_command_helper.rb:8-17 | BLPOP takes the one held message of the channel and leaves every list empty, or the caller is last in the queue |
| `GatewayReplies.TimeoutLeaves` | app/helpers/handle_ws_command_helper.rb:11-17 | a caller that times out leaves its one place, and the others keep their order |
| `GatewayReplies.MutexExcludes` | app/services/websocket_handler.rb:39-52 | while the mutex is held only the DEL of the newest message can happen among handler events; otherwise open, idle sockets may push and close |
| `GatewayReplies.CallersIgnoreMutex` | app/helpers/handle_ws_command_helper.rb:2-17 | what callers may do does not depend on the mutex |
| `GatewayReplies.CallerGetsMessage` | app/helpers/handle_ws_command_helper.rb:8-17 | from every such state, a caller that blocks before the message or pops while it is held gets it, and no other caller changes |
| `GatewayReplies.LateCallerMisses` | app/services/websocket_handler.rb:39-44 | a caller that pops after the DEL has missed it and blocks |
| `GatewayHandlers.Server.OnOpen` | app/services/websocket_handler.rb:26-32 | the object goes on along its run by `Open`: the socket has an entry of its own, and no route changes |
| `GatewayHandlers.Server.LPush` | app/services/websocket_handler.rb:39-41 | goes on by `Push`: the message is held, and in its list unless the queue search found a blocked caller |
| `GatewayHandlers.Server.DelList` | app/services/websocket_handler.rb:42-44 | goes on by `Del`: the mutex is free, every list is empty, callers and queue are untouched |
| `GatewayHandlers.Server.RegisterSocket` | app/services/websocket_handler.rb:48-52 | goes on by `Register`: the serial's route is the socket, or nil after a close, and every other route stays |
| `GatewayHandlers.Server.OnMessage` | app/services/websocket_handler.rb:35-52 | an uninterrupted handler goes on by three events, after which the serial's route is the sender and the mutex free; a message without serial does nothing |
| `GatewayHandlers.Server.OnClose` | app/services/websocket_handler.rb:78-85 | goes on by `Close`: other sockets' routes stay, and none to the socket is left exactly when it registered at most one serial last |
| `GatewayHandlers.Server.StartBatch` | server.rb:39-60 | goes on by `Start`: a new caller of the channel is ready for its first item and has no replies |
| `GatewayHandlers.Server.LookUp` | app/helpers/handle_ws_command_helper.rb:2-6 | goes on by `Lookup`: the command goes to the socket that registered the channel last, or the error is the reply |
| `GatewayHandlers.Server.BlPop` | app/helpers/handle_ws_command_helper.rb:8-17 | goes on by `Pop`: the reply is the one held message of the channel and every list is empty, or the caller is last in the queue |
| `GatewayHandlers.Server.GiveUp` | app/helpers/handle_ws_command_helper.rb:11-17 | goes on by `Timeout`: the caller is out of the queue with an error, and the others keep their order |

## Left out

- Digest, big-number, ASN.1 and configuration internals: parameters or small definitions here.
- Saving and rotating files, PEM and DER, prompts, printing, allocation failure other than of size zero, EBCDIC: input and output plumbing.
- Request parsing and signing in `certify`, extensions, validity dates and the printing of names: a request is a value with the outcome of those checks.
- Serial numbers drawn at random: the starting serial is a parameter, and so is whether a serial file is configured.
- OCSP sockets, index reloading, request parsing, ids hashed with an unknown digest, and response signing; CMP transfer and option checks.
- The sorting of CRL entries by serial, and the values of CRL extensions.
- The CMS operations with signers other than signing (`-resign`, receipts): only signing is a signing operation here.
- The lists a CMP context already holds when `-geninfo` fails half-way: the result is then just a failure.
- `-keyopt` parameters as EVP calls, and `-encrypt` itself: an option is a text attached to a position.
- `Devices::Sender` and `Devices.handle_reg`: sending a command is an event without effect on the model.
- `redis_subscriber_service.rb` and the `sendlog` publication: they rest on threads and Redis channels outside the modelled state.
- Which command a message answers, and whether a reply ever comes: the code carries no correlation id, and BLPOP may time out.
- The batch loop of `server.rb` is a caller that steps through its items, so that other events can fall between; the shape of the JSON it returns is not modelled.
- Sign: that signers have their options only if the options reach them is stated for lines whose option texts differ, because with equal texts one option can stand in for another.
- The other OpenSSL applications: option parsing around library calls.
