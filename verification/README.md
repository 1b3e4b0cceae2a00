# A verified model of GREYLOCK's core

GREYLOCK is a terminal finance tracker with an off-machine backend. This project models, in Dafny, the parts
of it whose correctness is an argument rather than a glance: the fuzzy matcher of the client, the hand-written
SHA-1/HMAC/TOTP and base 32, the hash-chained audit log with its sanitizer and canonical encoding, the Plaid
delta sync, the login limiter, enrollment and sessions, the in-place merge of downloaded transactions, and the
migration runner.

`dafny verify dfyconfig.toml` checks everything. Each module is one component:

| module | what it is |
|---|---|
| `FuzzySearch`, `FuzzyScores`, `FuzzyMatch` | the take/skip search as a function with its theorems, what scores are worth, and the array-writing code that computes it |
| `BigEndian` | bytes and big-endian fields, shared by the codecs |
| `Sha1`, `Sha1Vector`, `Hmac`, `Totp` | the standards' definitions with their examples, and the streaming code proved equal to them |
| `Base32` | base 32 from an accumulator that overflows |
| `CanonicalBytes`, `AuditChain`, `AuditLog` | the canonical encoding and its parser, hash chains and tamper evidence, the chain writer |
| `Sanitizer` | the recursive payload filter in front of the log |
| `PlaidSync`, `PlaidRuns`, `PlaidPages` | pages of changes applied row by row, whole runs with crashes, failures and fresh starts in between, and what a page leaves behind in its own terms |
| `Wrappers` | a value that may be absent |
| `RateLimit`, `Enrollment`, `Sessions` | the login limiter, one-shot tokens, session expiry |
| `Consolidation` | the in-place merge |
| `Migrations` | the migration registry and runner |

State the program updates in place is a class whose methods are proved against a specification function on
values (`Walk`, `Digest`, `Checked`, `Steps`, ...); the theorems are lemmas about those functions and about
runs of them.

## What the model assumes

- Each SQL transaction is one atomic step. Steps of different threads do not interleave inside one.
- The clock is nonnegative where the limiter needs it (an absent key reads as a window that began at 0), and it never runs backwards.
- BLAKE2b is any function: to 32 bytes for the audit chain, to 64 hex characters for synced row ids, to any text for
  token and session ids. Nothing is assumed about collisions except in the Plaid sync, where no two Plaid ids used in a
  run collide. Tamper evidence is stated as "equal, or here are two inputs that collide".
- The same Plaid cursor leads to the same page.
- Characters are those of the C locale. A NUL ends what a `const char*` shows.
- Failures are parameters: where the database fails in an append or an enrollment, which migrations fail in an
  attempt and what they had changed by then, how many writes a sync reaches before it dies, which of them fail, and
  whether it can read its cursor.
- Random bytes, the clock, the serializer of JSON (`Dump`) and the text forms of tokens are parameters.

## Where the code and its comments part

- `kRecursionLimit` is described as a maximum depth (src/utils/fuzzy_match.h:53). It is a limit on the total number of
  worker calls, shared by the whole search. A search that reaches it is still sound, but it can miss the best match:
  `FuzzySearch.CutSearchCanMissTheBest` gives "a" in "xaaaaaaaaa a". `FuzzySearch.FindsBestOfFirstNine` says what it
  finds, cut or not: the best of the greedy completions of its first nine calls. `FuzzySearch.BestExactly` says when that
  is the best match of all: exactly when no greedy completion of a later call scores more. An uncut search has no later
  calls (`FuzzySearch.BestWhenUncut`).
- A pattern of more than 256 characters never matches in `fuzzy_match`, though it may in `fuzzy_match_simple`
  (`FuzzySearch.SucceedsExactlyWhenEmbedded`).
- After the commit `handle_enroll` writes an audit entry. If that throws, the client is told of an internal error but is
  enrolled. `Enrollment.RefusedButEnrolled` is an instance, and `Enrollment.RefusalChangesNothingExactly` shows it is the
  only way in which a refused attempt changes anything.
- The session idle timeout equals the absolute one, so the idle test never decides (`Sessions.ValidatesExactly`).
- The test for base 64 tokens counts padding towards the 32 characters, and the test for hex tokens never adds
  anything to it (`Sanitizer.PaddingCounts`, `Sanitizer.HexTestIsRedundant`). The depth test lets containers nest nine
  deep (`Sanitizer.NineDeep`).
- A failing row write of a sync is logged and the cursor moves on all the same. For an id that its page names once the
  row is then wrong exactly if the write would have changed it, whichever kind of write it is
  (`PlaidSync.RightExactlyUnlessLost`). Losing writes in a sync that then dies does no harm
  (`PlaidRuns.CompletedPagesAppliedOnce`). Edits and deletions by hand reach synced rows too; what the pages say holds
  for the ids that no one else touched.
- A cursor lookup that fails counts as no cursor, so the sync starts over. If it stores the next cursor, replaying the
  pages puts everything right; if it does not, and its page names an id that later pages changed, the row can stay
  wrong (`PlaidRuns.UnfinishedFreshStartDiverges`). `PlaidRuns.InOrder` says which completed pages are right.
- A select of the audit head that fails while it runs is taken for an empty table. Only the primary key then
  keeps a second first row out (`AuditLog.FailedLookupOnChain`).
- A failing revocation reports whatever the connection's change count still says (`Sessions.SessionStore.RevokeSession`).
- Synced rows are described as "INSERT OR REPLACE". The statement keeps `account_id` and `created_at_unix` of a row that exists.
- Migrations "must be registered in ascending order". The code sorts, so any order will do (`Migrations.OrderDoesNotMatter`);
  what is needed is that versions be positive (`Migrations.NewDatabaseCompleteExactly`).
- Text with NUL bytes breaks the canonical encoding (`CanonicalBytes.NulsMakeEntriesCollide`);
  `CanonicalBytes.ParsesBackExactly` says exactly which entries it can carry.
- Merging twice, or in two parts, differs from merging once when transactions without a Plaid id are involved
  (`Consolidation.SecondMergeAddsNothingExactly`, `Consolidation.MergeSplitsExactly`).

## Model

| member | source | states |
|---|---|---|
| FuzzySearch.FindsBestOfFirstNine | src/utils/fuzzy_match.h:99-225 | for patterns of 1 to 256 characters, cut or not: the score found is exactly the highest among the leftmost-greedy completions of the first nine worker calls, and nothing is found when none of them completes |
| FuzzySearch.BestExactly | src/utils/fuzzy_match.h:99-225 | for patterns of 1 to 256 characters: the answer beats or ties every embedding exactly when no completion of a later call scores more than those of the first nine |
| FuzzySearch.IsCompletion | src/utils/fuzzy_match.h:141-161 | every embedding is the greedy completion of one of the calls of the uncut search |
| FuzzySearch.WorkerFinds | src/utils/fuzzy_match.h:111-224 | from any point and any counter, a worker call finds the highest score among the completions of the calls it still gets to run |
| FuzzySearch.BestWhenUncut | src/utils/fuzzy_match.h:111-225 | for patterns of 1 to 256 characters: when the uncut search needs fewer than ten worker calls, the answer scores at least as much as every strictly increasing, case-insensitive embedding of the pattern |
| FuzzySearch.CutExactlyWhenTooManyCalls | src/utils/fuzzy_match.h:111-114 | for patterns of at most 256 characters, the shared counter stays below its limit exactly when the uncut search needs fewer calls than that, and then equals that number |
| FuzzySearch.SucceedsExactlyWhenEmbedded | src/utils/fuzzy_match.h:99-225 | cut or not, the search succeeds exactly when some embedding exists and the pattern has at most 256 characters |
| FuzzySearch.SoundWhenCut | src/utils/fuzzy_match.h:214-224 | cut or not, the answer is a real embedding, carries its own score, and scores no less than the leftmost-greedy embedding |
| FuzzySearch.CallsAreLinear | src/utils/fuzzy_match.h:111-114 | the number of worker calls never exceeds 1 + 9 times the pattern length |
| FuzzySearch.CutSearchCanMissTheBest | src/utils/fuzzy_match.h:111-114 | a pattern and a string for which the cut search returns less than the best score |
| FuzzySearch.LateMatchIsMissed | src/utils/fuzzy_match.h:111-114 | for every one-letter pattern and every string: a match that comes after at least nine others and scores more than all of those before it is missed |
| FuzzySearch.WorkerHonest | src/utils/fuzzy_match.h:126-224 | from any consistent point of the search, what a worker call returns is an embedding with its own score |
| FuzzySearch.WorkerOptimal | src/utils/fuzzy_match.h:141-161 | from any point, an uncut worker call beats or equals every embedding that continues the choices made so far |
| FuzzySearch.WorkerCost | src/utils/fuzzy_match.h:111-157 | each call that gets past the limit test pays for at most one further call per pattern character |
| FuzzyMatch.FuzzyMatchRecursive | src/utils/fuzzy_match.h:99-225 | the code with cursors, match arrays and a shared counter returns exactly the outcome of the search function, leaves the winning embedding in `matches`, and does not touch the score when it fails |
| FuzzyMatch.KeepBetter | src/utils/fuzzy_match.h:146-157 | the best-so-far array, score and flag become the better of themselves and a recursive match, ties kept |
| FuzzyMatch.PickBetter | src/utils/fuzzy_match.h:166-224 | the end of a worker returns the better of its own complete path and the best recursive match |
| FuzzyMatch.ScoreMatches | src/utils/fuzzy_match.h:168-212 | the accumulated score is that of the recorded embedding, given in numbers for one match |
| FuzzyMatch.FuzzyMatchSimple | src/utils/fuzzy_match.h:239-250 | true exactly when the pattern embeds in the string |
| FuzzyMatch.FuzzyMatch | src/utils/fuzzy_match.h:263-291 | for every pattern and string: success exactly when the pattern is empty or embeds and is short enough, the score is that of an embedding, is the maximum when the counter stayed below ten, the calls are linear, and a word in itself scores 100 and 15 for each letter |
| FuzzyScores.SelfScore | src/utils/fuzzy_match.h:81-87 | a lower-case word of 1 to 256 letters searched for in itself scores 100 and 15 for each letter |
| FuzzyScores.OneLetter | src/utils/fuzzy_match.h:168-210 | a one-letter match at q scores 100, less 5 for each letter before it up to 15, less 1 for each other letter, plus 15 at the start, 30 after a separator and 30 at a step from lower to upper case |
| FuzzyScores.OneMoreMatch | src/utils/fuzzy_match.h:182-211 | one more match adds the letter it no longer leaves unmatched, what its place earns, and 15 exactly if it is next to the last match |
| FuzzyScores.RunScore | src/utils/fuzzy_match.h:190-195 | in lower-case text a run of n adjacent matches earns 15 for each but the first |
| FuzzyScores.GapScore | src/utils/fuzzy_match.h:190-195 | two matches with a gap between them earn nothing for it |
| FuzzyScores.SameExactly | src/utils/fuzzy_match.h:129-130 | two characters match exactly if they are equal or the two cases of one letter |
| Sha1.Sha1State.ProcessBlock | server/auth/HmacSha1.h:42-64 | one buffered block is compressed as steps (a) to (e) of section 6.1 of RFC 3174 |
| Sha1.EightyRounds | server/auth/HmacSha1.h:53-62 | the rotating five variables hold the standard's state after eighty rounds |
| Sha1.Sha1State.Update | server/auth/HmacSha1.h:66-79 | the state that stood for a message now stands for that message with the data appended, wherever the block boundaries fall |
| Sha1.Sha1State.Finalize | server/auth/HmacSha1.h:81-103 | the result is the standard's digest of everything fed so far, with one or two blocks of padding |
| Sha1.HashChunks | server/auth/HmacSha1.h:66-103 | any sequence of updates gives the digest of the concatenation |
| Sha1.HoldsBlock | server/auth/HmacSha1.h:74-77 | filling the buffer and compressing it keeps the state a true account of the message |
| Sha1.PadOne | server/auth/HmacSha1.h:88-93 | a tail of at most 55 bytes is padded within its block, and compressing that block gives the digest |
| Sha1.PadTwo | server/auth/HmacSha1.h:82-93 | a longer tail needs a second block, and compressing both gives the digest |
| Sha1.LengthFieldExact | server/auth/HmacSha1.h:67 | the 64-bit length field says the true length exactly for messages shorter than 2^61 bytes |
| Sha1Vector.AbcDigest | server/auth/HmacSha1.h:34-103 | the digest of "abc" is the twenty bytes that section 7.3 of RFC 3174 gives |
| Sha1Vector.RunIsRounds | server/auth/HmacSha1.h:44-62 | rounds on a sliding window of sixteen words are the standard's rounds and schedule, so the example can be worked out in steps of five rounds |
| Sha1.MajorityAgrees | server/auth/HmacSha1.h:58 | where two of the words agree the third function of the rounds gives what they agree on |
| Sha1.ChooseChooses | server/auth/HmacSha1.h:56 | the first gives one word under the ones of the selector and the other under its zeros |
| Sha1.ParityBalances | server/auth/HmacSha1.h:57-59 | the second and fourth give the word that takes the other two back to zero |
| Sha1.ConstantsAreRoots | server/auth/HmacSha1.h:56-59 | the four constants are the integer parts of 2^30 times the square roots of 2, 3, 5 and 10, in rounds 0-19, 20-39, 40-59 and 60-79 |
| Sha1.PadShape | server/auth/HmacSha1.h:81-93 | padding is the message, 0x80, as few zeros as fill whole blocks, and eight bytes of eight times the length |
| Hmac.ComputeHmac | server/auth/HmacSha1.h:110-142 | section 2 of RFC 2104 for keys and messages of any length |
| Hmac.AsTheStandardSays | server/auth/HmacSha1.h:114-141 | for any block that is the key, or its digest if longer than 64 bytes, with zeros after it, and any pads that differ from it by 0x36 and 0x5C in each byte, the code is the outer hash of the inner one |
| Base32.TotpSecretToBase32 | server/auth/Totp.cpp:38-56 | the loop over a wrapping 32-bit accumulator writes the RFC 4648 text of the secret, bits in fives, for secrets of any length |
| Base32.DecodeInvertsEncode | server/auth/Totp.cpp:38-56 | the text decodes to the original bytes and has ceil(8n/5) symbols |
| Base32.Alphabet | server/auth/Totp.cpp:36 | the letters are those of the alphabet of RFC 4648 in order |
| Base32.Examples | server/auth/Totp.cpp:38-56 | "f" gives "MY" and "foobar" gives "MZXW6YTBOI", as in section 10 of RFC 4648 |
| Base32.ReadsTrueBits | server/auth/Totp.cpp:45-49 | a register that agrees with the true bit string modulo 2^32 gives the true five bits at every offset the loop reads |
| Base32.ShiftIn | server/auth/Totp.cpp:45 | shifting a byte into the register keeps that agreement, wrapped or not |
| Totp.ComputeTotpCode | server/auth/Totp.cpp:108-134 | the code is section 5.3 of RFC 4226 on the counter of the time, below 1000000 |
| Totp.CounterBytes | server/auth/Totp.cpp:110-115 | peeling bytes off the end gives the counter as eight big-endian bytes |
| Totp.Truncate | server/auth/Totp.cpp:127-132 | masking the first byte before the shift is masking the word, and all four indices are in range |
| Totp.MaskThenShift | server/auth/Totp.cpp:129-132 | the top bit may be cleared before or after the four bytes are put together |
| Totp.TruncationExample | server/auth/Totp.cpp:127-133 | the example of section 5.4 of RFC 4226 gives 872921 |
| Totp.SecondTruncationExample | server/auth/Totp.cpp:127-133 | the HMAC of Appendix D for the counter 1 gives 287082 |
| Totp.OffsetIsLowNibble | server/auth/Totp.cpp:128 | the offset is the last byte modulo 16 |
| Totp.LastSixDigits | server/auth/Totp.cpp:110-133 | a code is the last six decimal digits of the truncated HMAC of the counter's eight big-endian bytes |
| Totp.CounterOfPeriod | server/auth/Totp.cpp:110 | all thirty seconds of a period have its number as their counter |
| Totp.CounterBeforeEpoch | server/auth/Totp.cpp:110 | a negative time is counted as the unsigned number with its bits |
| Totp.VerifyTotpCode | server/auth/Totp.cpp:144-180 | the accumulated comparison is true exactly when some step of the window has the code; codes outside 0..999999 are refused |
| Totp.FourBytesEqual | server/auth/Totp.cpp:153-175 | two codes are equal exactly when their four bytes are |
| Totp.NearbyCodeAccepted | server/auth/Totp.cpp:144-180 | a code made at time s is accepted at t whenever their 30-second periods are at most the window apart |
| Totp.AcceptedExactly | server/auth/Totp.cpp:162-177 | away from the epoch the accepted codes are exactly those of the 2w+1 periods around the time |
| CanonicalBytes.ComputeCanonicalBytes | server/audit/CanonicalBytes.cpp:54-94 | refuses a previous hash that is not 32 bytes long, and otherwise builds the documented layout |
| CanonicalBytes.AppendBe64 | server/audit/CanonicalBytes.cpp:18-27 | appends the number modulo 2^64, most significant byte first |
| CanonicalBytes.AppendBe32 | server/audit/CanonicalBytes.cpp:35-40 | appends the number modulo 2^32, most significant byte first |
| CanonicalBytes.AppendNulTerminated | server/audit/CanonicalBytes.cpp:43-48 | appends the text and one NUL |
| CanonicalBytes.ParseInvertsCanonical | server/audit/CanonicalBytes.cpp:54-94 | a parser reads every well-formed entry back from its bytes |
| CanonicalBytes.ParsesBackExactly | server/audit/CanonicalBytes.cpp:54-94 | the entries that read back are exactly those with NUL-free texts, numbers in 64 bits, details below 2^32 bytes and a 32-byte previous hash |
| CanonicalBytes.CanonicalInjective | server/audit/CanonicalBytes.cpp:54-94 | two well-formed entries with the same bytes are equal |
| CanonicalBytes.Layout | server/audit/CanonicalBytes.cpp:61-91 | the bytes are number, time in nanoseconds, the seven texts in their order each with a NUL, the length, the details and the previous hash |
| CanonicalBytes.NulsMakeEntriesCollide | server/audit/CanonicalBytes.cpp:43-48 | two different entries, one NUL apart, with the same bytes |
| AuditChain.EqualHeadsMeanEqualChains | server/audit/SqlAuditLog.cpp:40-81 | two chains whose newest hashes agree have the same length and the same entries, or the proof returns two byte strings that collide |
| AuditChain.SameHashSameEntry | server/audit/SqlAuditLog.cpp:80-81 | two well-formed entries with one hash are equal, or their bytes collide |
| AuditChain.RowsPointBack | server/audit/SqlAuditLog.cpp:40-62 | the first row points back to 32 zero bytes and every other to the hash of the row before it |
| AuditChain.HashCoversRow | server/audit/SqlAuditLog.cpp:66-81 | what a row's hash covers is its own number, time, texts, details and previous hash, in the order of the layout |
| AuditLog.SqlAuditLog.SelectHead | server/audit/SqlAuditLog.cpp:43-48 | finds the row with the largest number, or nothing in an empty table |
| AuditLog.SqlAuditLog.AppendLocked | server/audit/SqlAuditLog.cpp:29-148 | appends exactly one row after the newest, or fails and leaves the table as it was, wherever the database fails; a head that cannot be looked up leads to row 1 if that is free |
| AuditLog.SqlAuditLog.Record | server/audit/SqlAuditLog.cpp:154-203 | an accepted event is appended and a failure to append it reaches the caller; a refused one appends the stand-in and never throws |
| AuditLog.HeadOfChain | server/audit/SqlAuditLog.cpp:43-62 | in a chain the newest row is number n and its hash has 32 bytes, so the degenerate recovery branch is unreachable |
| AuditLog.AppendExtendsChain | server/audit/SqlAuditLog.cpp:66-148 | an append to a chain of n rows gives a chain of n+1, and the stored row, NULL read as the empty string, is the entry that was hashed |
| AuditLog.ReachableTablesAreChains | server/audit/SqlAuditLog.cpp:29-203 | after any calls with any failures the table is a chain with one row for each call whose append went through |
| AuditLog.FailedLookupOnChain | server/audit/SqlAuditLog.cpp:43-65 | a head lookup that fails while it runs goes through on an empty chain only, and then appends what it should |
| AuditLog.RejectionIsRecorded | server/audit/SqlAuditLog.cpp:158-195 | a refused payload leaves exactly one new row, with the controlled action, outcome and payload |
| AuditLog.RowsTellTheirCalls | server/audit/SqlAuditLog.cpp:87-130 | in every run the row of each call that went through is still there at the end, with the event's actor, domain, subject and time, and its action, outcome and payload or, if that was refused, "audit_record_rejected", "failure" and the stand-in payload |
| AuditLog.NewRowTells | server/audit/SqlAuditLog.cpp:154-203 | the row that a call appends tells of that call, and no other row changes |
| AuditLog.LandsOnChain | server/audit/SqlAuditLog.cpp:29-148 | on a chain a call goes through exactly if nothing fails, or if only the lookup of the head does and there is none |
| AuditLog.ReachableTablesAreReadable | server/audit/SqlAuditLog.cpp:29-203 | if texts are NUL-free and times fit, every row of a reachable table parses back: the 64 KiB cap keeps the length prefix exact |
| Sanitizer.AcceptsExactly | server/audit/Sanitizer.cpp:222-245 | accepted are exactly the objects in which no value on any path offends and whose text has at most 64 KiB |
| Sanitizer.WalkAccepts | server/audit/Sanitizer.cpp:158-216 | at any depth the recursive walk with early exit agrees with the condition on all paths |
| Sanitizer.RejectionIsJustified | server/audit/Sanitizer.cpp:158-232 | a reported offence is at a value that is really there and really offends |
| Sanitizer.ReportIsJustified | server/audit/Sanitizer.cpp:158-216 | the same for a walk started anywhere |
| Sanitizer.RejectionPasses | server/audit/SqlAuditLog.cpp:175-179 | the stand-in payload passes the sanitizer |
| Sanitizer.HexTestIsRedundant | server/audit/Sanitizer.cpp:145-151 | a string looks like a token exactly when it looks like base 64 |
| Sanitizer.TokenShapeSpelledOut | server/audit/Sanitizer.cpp:110-151 | a token shape is 32 characters or more, by their codes letters, digits, + - / or _, and then at most two = |
| Sanitizer.AllowedKeysSpelledOut | server/audit/Sanitizer.cpp:25-49 | the 23 keys that are always allowed |
| Sanitizer.DeniedWordsSpelledOut | server/audit/Sanitizer.cpp:54-67 | the 12 words that no other key may contain |
| Sanitizer.KeyAllowedExactly | server/audit/Sanitizer.cpp:89-104 | a key is allowed exactly if its lower case is one of the former or contains none of the latter |
| Sanitizer.LeavesSpelledOut | server/audit/Sanitizer.cpp:184-216 | under a harmless key null, integers, booleans, finite numbers and text that is no token pass, and nothing else that is not a container |
| Sanitizer.PaddingCounts | server/audit/Sanitizer.cpp:106-119 | thirty characters of the alphabet and two of padding pass for a token, though the described shape wants 32 before the padding |
| Sanitizer.NineDeep | server/audit/Sanitizer.cpp:158-182 | arrays inside the payload's object pass exactly up to eight of them, one inside the other |
| Sanitizer.IsBase64UrlLike | server/audit/Sanitizer.cpp:110-131 | true exactly for strings of at least 32 characters in all that are alphabet characters and then at most two padding characters |
| Sanitizer.IsHexLike | server/audit/Sanitizer.cpp:133-143 | true exactly for at least 32 hex digits |
| Sanitizer.ToLower | server/audit/Sanitizer.cpp:82-87 | every character is lowered in place |
| PlaidRuns.CompletedPagesAppliedOnce | server/plaid/PlaidSyncScheduler.cpp:146-183 | whenever a sync completes a page in good order, after any crashes, replays, API errors, missing cursors, failing writes, failing cursor lookups and changes by others, the table holds what the pages up to that one say when each is applied once, in order, for every Plaid id that no one else touched |
| PlaidPages.CompletedPageInItsOwnTerms | server/plaid/PlaidSyncScheduler.cpp:154-183 | then every transaction that the page adds or modifies and does not mention again has a row with its amount, date, name and category, no removed one has a row, and what the page does not mention says what the pages before it say |
| PlaidPages.PageArrives | server/plaid/PlaidSyncScheduler.cpp:154-179 | the same for one sync that reaches the end of its page with nothing lost, from any table |
| PlaidPages.AddedIsStored | server/plaid/PlaidSyncScheduler.cpp:349-414 | an added transaction that is not mentioned again is stored as it was sent, under the account of its row or else the sync's |
| PlaidPages.ModifiedIsStored | server/plaid/PlaidSyncScheduler.cpp:419-446 | a modified one has its new fields if it was there or came with the page, and keeps its account |
| PlaidPages.RemovedIsGone | server/plaid/PlaidSyncScheduler.cpp:451-457 | a removed one is gone whatever else the page says about it |
| PlaidPages.UnmentionedIsKept | server/plaid/PlaidSyncScheduler.cpp:154-179 | what a page does not mention stays as it was |
| PlaidRuns.CalmRunsAreInOrder | server/plaid/PlaidSyncScheduler.cpp:146-183 | as long as cursors can be read and no write is lost in a sync that reaches its end, every page is completed in good order, whatever crashed in between |
| PlaidRuns.UnfinishedFreshStartDiverges | server/plaid/PlaidSyncScheduler.cpp:267-287 | a run in which one cursor lookup fails, the sync that starts over dies before it stores a cursor, and the table is wrong from then on |
| PlaidRuns.RunProgress | server/plaid/PlaidSyncScheduler.cpp:146-183 | at every moment of every run, for ids that no one else touches, the table shows some writes of the pages seen and after them, while the record is clean, the pages before the cursor and some writes of the next one |
| PlaidRuns.RowsStayKeyed | server/plaid/PlaidSyncScheduler.cpp:349-457 | in every run, with any edits by hand, deletions and failures, every synced row sits under the hash of its Plaid id and no Plaid id has two rows |
| PlaidRuns.SyncProgress | server/plaid/PlaidSyncScheduler.cpp:146-183 | one sync, whether it dies, completes, loses writes or starts over, moves the record as its outcome says |
| PlaidRuns.PageClosed | server/plaid/PlaidSyncScheduler.cpp:154-183 | completing a page on top of any part of it is the page once |
| PlaidRuns.OrderlyPage | server/plaid/PlaidSyncScheduler.cpp:146-183 | a page completed on top of writes of itself and of earlier pages only, in any order and number, is all pages up to it, once each |
| PlaidSync.WritesShow | server/plaid/PlaidSyncScheduler.cpp:154-179 | after any attempt the table shows exactly what the surviving writes mean |
| PlaidSync.RightExactlyUnlessLost | server/plaid/PlaidSyncScheduler.cpp:154-183 | when a sync reaches the end of a page, the table is right about an id that the page names once, be it added, modified or removed, exactly if the write did not fail or would have changed nothing |
| PlaidSync.StoredExactlyUnlessLost | server/plaid/PlaidSyncScheduler.cpp:155-161 | in particular a new transaction is stored exactly if its write did not fail |
| PlaidSync.PlaidSyncScheduler.GetCursor | server/plaid/PlaidSyncScheduler.cpp:267-287 | the stored cursor, none if it is empty, absent or cannot be read |
| PlaidRuns.HandChangesAreOthers | server/data/TransactionsHandler.cpp:364-435 | creating, editing or deleting a row by hand keeps the keys and touches the Plaid id of that row at most |
| PlaidSync.AnyPartThenWhole | server/plaid/PlaidSyncScheduler.cpp:154-179 | any writes of a page, in any order and number, followed by the whole page equal the page once |
| PlaidSync.Sandwich | server/plaid/PlaidSyncScheduler.cpp:349-457 | a write made before and again after another one is the same as made only after |
| PlaidSync.WriteRefines | server/plaid/PlaidSyncScheduler.cpp:349-457 | each of the three row writes keeps rows under their hashed ids, changes one row at most, and does to the account what the change means; an insert onto an existing row keeps its account |
| PlaidSync.CreationTimeIsKept | server/plaid/PlaidSyncScheduler.cpp:375-384 | a row's creation time is that of the write that made it |
| PlaidSync.OneRowPerPlaidId | server/plaid/PlaidSyncScheduler.cpp:416-457 | selecting by Plaid id and selecting by hashed id find the same single row |
| PlaidSync.OtherRowsUntouched | server/plaid/PlaidSyncScheduler.cpp:349-457 | rows of Plaid ids that a page does not name stay as they are |
| PlaidSync.ManualRowsUntouched | server/data/TransactionsHandler.cpp:51-57 | hand-entered rows, whose ids have 32 characters and not 64, are never touched by a sync |
| PlaidRuns.OtherAccountsAreOthers | server/plaid/PlaidSyncScheduler.cpp:126-183 | another account's sync or part of one keeps the keys and touches at most the Plaid ids its page names |
| PlaidSync.PlaidSyncScheduler.SyncAccount | server/plaid/PlaidSyncScheduler.cpp:126-183 | makes the page's writes in order, as many as are reached before a crash, passes over those that fail, and stores the cursor only after all of them; an API error changes nothing |
| PlaidRuns.SyncFromServer | server/plaid/PlaidSyncScheduler.cpp:146-183 | fetching with the cursor as it was read, if it could be, and applying the page is one step of the runs above, and other accounts' cursors stay |
| RateLimit.RateLimiter.RateLimitCheck | server/auth/AuthHandlers.cpp:130-167 | the in-place update of the bucket map is one step of the bounded limiter, and the request is refused unless admitted |
| RateLimit.RateLimiter.Sweep | server/auth/AuthHandlers.cpp:137-143 | erasing while iterating leaves exactly the buckets whose window has not passed |
| RateLimit.RefinesUnbounded | server/auth/AuthHandlers.cpp:130-167 | on all requests not refused for want of room the bounded limiter decides as one that never forgets |
| RateLimit.NeverTooBig | server/auth/AuthHandlers.cpp:133-151 | the map never holds more than 10000 keys |
| RateLimit.AtMostTenInAnyWindowLength | server/auth/AuthHandlers.cpp:153-166 | no key is admitted more than five times since its window began, or more than ten times in any 900-second span |
| RateLimit.RefusedWithCauseOnly | server/auth/AuthHandlers.cpp:133-163 | a request is refused for its count only if its key was admitted at least five times within the last 900 seconds, and for want of room only if the key is new and 10000 others have windows less than 900 seconds old |
| RateLimit.LimitedMeansFive | server/auth/AuthHandlers.cpp:155-163 | the first half, at any point of a run |
| RateLimit.SaturatedMeansFull | server/auth/AuthHandlers.cpp:135-150 | the second half |
| RateLimit.FreeRunAccounted | server/auth/AuthHandlers.cpp:155-166 | every bucket of the unbounded limiter accounts for its key's admissions in its window and the one before |
| Enrollment.Database.HandleEnroll | server/auth/AuthHandlers.cpp:274-366 | the user is added and the token spent together or not at all, and each refusal gets its own answer, a wrong email the same as a wrong token; a client is enrolled and told so exactly if the token is stored, unexpired, unspent and for this email, id and email are new and nothing fails, and then with exactly the fields of the request |
| Enrollment.RefusalChangesNothingExactly | server/auth/AuthHandlers.cpp:338-365 | a refused attempt leaves both tables unchanged exactly unless its only failure is the audit entry after the commit |
| Enrollment.RefusedButEnrolled | server/auth/AuthHandlers.cpp:347-365 | a client that is told of an internal error and is enrolled |
| Enrollment.UsersMatchTokens | server/auth/AuthHandlers.cpp:274-347 | over every run users are in one-to-one correspondence with the tokens their enrollments spent, with matching email and time, each before its token expired |
| Enrollment.OneShot | server/auth/AuthHandlers.cpp:274-347 | two committed enrollments of a run never show the same token, or share an email or a user id |
| Enrollment.ConsumptionIsForEver | server/auth/EnrollmentToken.cpp:261-278 | no event of a run undoes or rewrites a consumption, although the update does not test for one |
| Enrollment.Database.PeekEnrollmentToken | server/auth/EnrollmentToken.cpp:204-256 | finds a token exactly when it is stored, unexpired and unspent; a failing lookup finds nothing or throws |
| Enrollment.Database.ConsumeEnrollmentToken | server/auth/EnrollmentToken.cpp:119-199 | spends a known, unexpired, unspent token and returns its row as stored; otherwise changes nothing, and throws exactly where the database does |
| Enrollment.Database.MarkEnrollmentTokenConsumed | server/auth/EnrollmentToken.cpp:261-278 | reports whether a row was changed, and changes that row only |
| Enrollment.Database.PersistEnrollmentToken | server/auth/EnrollmentToken.cpp:85-114 | adds a fresh token, never replacing one |
| Sessions.ValidatesExactly | server/auth/Session.cpp:126-198 | in every run a token validates exactly when it was minted, not revoked since, and is less than eight hours old; `last_seen` lies between creation and now, and the idle test never decides |
| Sessions.RowsAreExplained | server/auth/Session.cpp:72-224 | a row is stored exactly when its session was minted, and tells the first mint, the last use and any revocation |
| Sessions.ValidTokenWasMinted | server/auth/Session.cpp:126-198 | a secret that validates was minted less than eight hours ago, or collides with one that was |
| Sessions.SessionStore.MintSession | server/auth/Session.cpp:72-121 | stores a fresh session that lasts eight hours and returns the token's text, never replacing a row; a failing insert changes nothing |
| Sessions.SessionStore.ValidateAndTouchSession | server/auth/Session.cpp:126-198 | answers the user of a usable session and moves its `last_seen`, unless that update fails unnoticed; changes nothing otherwise, and throws where the database does |
| Sessions.SessionStore.RevokeSession | server/auth/Session.cpp:203-224 | marks the session revoked and reports whether it existed; throws if the statement cannot be prepared; an update that fails while it runs changes nothing and reports a stale count |
| Consolidation.TransactionList.MergeTransactions | src/services/ConsolidationService.cpp:87-136 | the loop over list, key set and counters computes the merge function |
| Consolidation.SameAgainIsDuplicate | src/services/ConsolidationService.cpp:101-106 | a transaction with the Plaid id, amount and date of a row is counted as a duplicate and changes nothing |
| Consolidation.ChangedIsUpdate | src/services/ConsolidationService.cpp:108-122 | one with another amount or date than every row of its id updates the first of them: empty notes, an empty category and the pending flag, and nothing else |
| Consolidation.NewIsAppended | src/services/ConsolidationService.cpp:123-127 | one with a new Plaid id, or none, is appended as it is |
| Consolidation.MergeIdempotent | src/services/ConsolidationService.cpp:87-136 | with Plaid ids, merging a batch again leaves the list as it is and reports nothing new |
| Consolidation.SecondMergeAddsNothingExactly | src/services/ConsolidationService.cpp:93-127 | a second merge of a batch changes nothing exactly when every transaction has a Plaid id |
| Consolidation.MergeSplitsExactly | src/services/ConsolidationService.cpp:93-127 | cutting a batch in two builds the same list exactly when no key without a Plaid id occurs on both sides |
| Consolidation.CountsAddUp | src/services/ConsolidationService.cpp:91-128 | the three counts add up to the batch size, and the list grows by the first |
| Consolidation.ExistingRowsKept | src/services/ConsolidationService.cpp:108-123 | existing rows keep their places and everything but missing notes, a missing category and the pending flag |
| Consolidation.SeenIsKeysOf | src/services/ConsolidationService.cpp:93-98 | the key set is always that of the list built so far plus the keys without an id met in this batch |
| Consolidation.NoIdRowsAdded | src/services/ConsolidationService.cpp:100-127 | a merge adds one row for each key without a Plaid id that it has not met |
| Consolidation.NoIdIsAlwaysNew | src/services/ConsolidationService.cpp:108-127 | a batch with a transaction that has no Plaid id always adds a row |
| Consolidation.RowTwice | src/services/ConsolidationService.cpp:100-127 | replaying an absorbed batch after one more transaction, and then that transaction, changes nothing |
| Migrations.RunsResume | server/db/Migrations.cpp:63-109 | after every attempt of any run the database is that of a prefix of the sorted registry, each migration applied once, and an attempt succeeds exactly when the prefix is all of it and the version table could be read |
| Migrations.SuccessMeansAllApplied | server/db/Migrations.cpp:63-109 | however many attempts failed before, success means all migrations folded in ascending order once each |
| Migrations.AttemptResumes | server/db/Migrations.cpp:63-109 | an attempt from a prefix goes on to the first migration that fails in it |
| Migrations.AnyOrderAnyFailures | server/db/Migrations.cpp:27-109 | distinct positive versions registered in any order, attempted any number of times with any failures and then with success, leave the schema folded in ascending order once each |
| Migrations.JournalIsAscending | server/db/Migrations.cpp:27-109 | migrations that note their version in a journal leave, after any registration order and any failures, exactly their versions in strictly ascending order |
| Migrations.OrderDoesNotMatter | server/db/Migrations.cpp:27-42 | two registration sequences that are permutations of each other, with distinct versions, give the same registry |
| Migrations.RegisteredSorted | server/db/Migrations.cpp:27-42 | after any sequence of registrations the registry is strictly ascending and holds every version once |
| Migrations.RegisteredContents | server/db/Migrations.cpp:27-42 | with distinct versions the registry is a permutation of what was registered |
| Migrations.Runner.RegisterAll | server/db/Migrations.cpp:27-42 | any sequence of registrations builds that registry, each refusal leaving it one shorter |
| Migrations.InsertedSorted | server/db/Migrations.cpp:36-41 | the registry stays strictly ascending and gains exactly the new version |
| Migrations.NewDatabaseCompleteExactly | server/db/Migrations.cpp:49-70 | a new database receives every migration exactly when all versions are positive |
| Migrations.Runner.RegisterMigration | server/db/Migrations.cpp:27-42 | a taken version is refused without a change, any other is put in its place |
| Migrations.Runner.ApplyPending | server/db/Migrations.cpp:63-109 | applies what is above the current version in order, and undoes whatever the failing migration had changed |
| Migrations.Database.CurrentVersion | server/db/Migrations.cpp:47-58 | the largest recorded version, or 0, unless the table cannot be read |

## Left out

- HTTP routing, request parsing, TLS, SQLite and libcurl: foreign calls. Tables are maps and a transaction is a saved copy.
- libsodium: BLAKE2b is a function parameter; password hashing, envelope encryption, random bytes and constant-time claims are not modelled.
- Views, widgets, the command table, `fuzzy_find`, CRUD handlers, totals, formatting and configuration: they would only add easy members.
- Integer overflow in fuzzy scores, which needs strings of about 2^31 characters, and of `seq` beyond 2^63.
- Signed overflow of `ts_ms` times 10^6 and of a time plus the window, which is undefined in C++; the encoding is modelled as wrapping and the theorems about it ask for times that fit.
- The sanitizer's reason texts and the rendering of paths: a report is a reason and the list of child positions that leads to it.
- Two-decimal text of amounts in the merge key: amounts are whole cents and the key is a triple, so ids or dates that contain the separator are not modelled.
- `std::sort` in `register_migration` is modelled as moving the new migration down to its place, which is all it can do to a registry that was sorted.
- PlaidSync.PlaidSyncScheduler.SyncAccount: does not model the account lookup, decryption of the access token, the balance update, the counts or audit events.
- Decoding of token texts (hex and base 64) is a parameter.
- The handler's audit entries are modelled only as a point that can fail, not as rows of the log.
