# Verification model of T3dmium

A Dafny model of the parts of T3dmium whose correctness is an argument over runs,
interleavings or encodings rather than over one function body:

- the self-hosted sync server and the devices that talk to it,
- the client's key schedule, record encryption and request authentication,
- the network audit: scenario driver, capture addon and verdict,
- the patch validator: sparse tree, source cache and DEPS resolver.

`dafny verify dfyconfig.toml` checks the whole project.

## How it is organised

| file | models |
|---|---|
| `SyncStore.dfy` | the three tables; class `Store` with `create_group`, `get_group_auth_hash`, `upsert_records` (loop, rollback), `query_records` and the connection's open transaction, each proved against a function on the table values |
| `StoreLaws.dfy` | what one batch does, how batches compose, the table invariant |
| `ServerRuns.dfy` | request threads as interleaved lock sections: authenticate, then act; what an admitted request does |
| `Replica.dfy`, `LastWriterWins.dfy`, `Progress.dfy` | incremental pull, conflict model, optimistic retry |
| `Base64Url.dfy`, `Utf8.dfy`, `KeySchedule.dfy`, `Aead.dfy`, `RecordAad.dfy` | the byte-level pipeline; SHA-256 and HMAC are arbitrary functions with 32-byte results |
| `RecordCipher.dfy`, `RequestAuth.dfy`, `EndToEnd.dfy` | records, requests, and the two together with the server: what is pulled is what was edited, what is signed is stored |
| `Text.dfy`, `RuleMatching.dfy`, `Checker.dfy`, `AuditRun.dfy` | string matching, the verdict, the two audit processes and their files |
| `DepsResolver.dfy`, `PinnedSources.dfy`, `SeriesValidation.dfy` | DEPS lookup, the cached fetcher, the series on a sparse and on a full tree |

Modelling choices that matter:

- A lock-protected method of the store is one atomic step; a request takes two, since
  the hash look-up and the operation it guards are separate sections. Other threads run
  in between.
- A pairing whose hash the table refuses (null, or text without a UTF-8 form) raises at the
  INSERT. Python has opened a transaction by then and `create_group` does not roll back, so
  the connection stays in it until the next commit or rollback of any thread.
- A record that Python or SQLite refuses is a record without version, with a version
  outside the signed 64-bit range, or with an unbindable value; it ends the batch with
  an exception where the code meets it (in `int()`, or at the INSERT but not on a conflict).
- Strings are sequences of Unicode scalar values. Lower-casing, white space and digits
  are parameters (`Text.Unicode`), so the audit results hold for any Unicode tables.
- `urlsplit` is a parameter of a flow: the flow carries its scheme, netloc and path.
- The base64 decoder is the lenient scanner of Python's `binascii`.
- A patch is any function on the files it names; a rejected patch may leave changes behind.
  Under `--forward` the patch tool does not create a file that is there: an assumption on the
  tool that only the equivalence with the full tree uses.

## Where the code and its documentation differ

- `audit/capture.py:124-125` says a hard kill never loses evidence. A kill after a request
  is appended and before the dump is renamed loses it, on every audit
  (`AuditRun.KillLosesOne`). The file is complete iff the addon is between two requests, and
  otherwise lacks exactly the one in flight (`AuditRun.KillLosesAtMostOne`).
- `tools/validate_patches.py:5-10` says stacked patches are validated as they apply at
  build time. A patch that expects a file an earlier one deleted is validated against a
  fresh copy, and a patch that creates an existing file does not meet it
  (`SeriesValidation.ReadAfterDeletePasses`, `SeriesValidation.CreateOverExistingPasses`).
  The series applies to the full tree iff validation returns zero and neither occurs
  (`SeriesValidation.SparseRefinesFull`).
- `tools/validate_patches.py:101-104` promises a file's bytes, or None if it is genuinely
  absent. Names that end in `.ABSENT` can break that in two ways
  (`PinnedSources.MarkerMistakenForFile`, `PinnedSources.FileMistakenForMarker`);
  `PinnedSources.TransparentIff` says for which sets of names it holds.
- `sync/PROTOCOL.md` section 4 has a client retry at `server_version + 1`. At version
  2^63 - 1 that value is not storable, and every retry raises (`Progress.RebaseAcceptedIff`).
- `sync/PROTOCOL.md` section 3 has two outcomes for pairing an existing group; a stored
  or presented hash that is not ASCII makes the comparison raise
  (`ServerRuns.FirstRegistrationWins`).
- `sync/server/app.py:80-100` leaves a transaction open when the INSERT of a pairing is refused.
  The next push, of whatever group, then raises at BEGIN although alone it would commit
  (`ServerRuns.RefusedPairingCostsAPush`); otherwise groups do not affect each other
  (`ServerRuns.GroupsDoNotInterfere`).
- `sync/PROTOCOL.md` section 4 says that the conflict model converges. Among records of one
  version the first arrival wins, so what it converges to depends on the order exactly if a
  slot's top records carry different payloads (`LastWriterWins.RebatchingIsIrrelevant`).

## Model

| member | source | states |
|---|---|---|
| SyncStore.Store.CreateGroup | sync/server/app.py:80-100 | registers a new group with a zero counter, answers for an existing one by comparing hashes, and changes nothing else; a refused INSERT raises and leaves the transaction open, a successful one leaves none |
| SyncStore.Store.GetGroupAuthHash | sync/server/app.py:102-107 | the stored hash, or nothing for an unknown group |
| SyncStore.Store.UpsertRecords | sync/server/app.py:109-158 | the loop over the live table, with commit and rollback, has the effect and the reply of the recursive batch function; in a transaction left open it raises; after an exception all tables are as before, and no transaction is open afterwards |
| SyncStore.Store.QueryRecords | sync/server/app.py:160-176 | returns exactly the rows of the group above the cursor whose collection equals the one asked for, all collections if none or the empty one is asked for: each once, column by column, by ascending seq; the next cursor is the last seq |
| StoreLaws.OneRecord | sync/server/app.py:124-150 | a single record: accepted iff the slot is free or its version smaller, and the value a signed 64-bit one that SQLite can bind; what the row then holds, what a conflict reports, and that a refused value changes nothing |
| StoreLaws.PushAdvances | sync/server/app.py:124-150 | a batch removes no row, only raises versions, stamps each changed row above the old counter, spares other groups, and ticks the counter once per accepted record |
| StoreLaws.EveryRecordAnswered | sync/server/app.py:124-150 | every record of a committed batch is answered by exactly one entry: slots and versions of accepted and conflicts together are, with multiplicity, those of the batch |
| StoreLaws.BatchSplits | sync/server/app.py:109-158 | pushing a + b equals pushing a, then b: tables, concatenated answers, last counter; it raises iff one of the two would, leaving nothing of either |
| StoreLaws.BatchSplitsIff | sync/server/app.py:119-153 | for any group, two committing batches split that way iff the group has a counter row or the first accepted nothing |
| StoreLaws.RegisterKeepsInv | sync/server/app.py:80-100 | pairing keeps the table invariant: every group has a counter row, seqs distinct and within 1..counter |
| StoreLaws.UpsertKeepsInv | sync/server/app.py:109-158 | so does every batch, whatever it holds |
| StoreLaws.UpsertEvolves | sync/server/app.py:151-158 | the counter rises by the number of accepted records and is the reported server_seq |
| ServerRuns.RunKeeps | sync/server/app.py:80-176 | every interleaving keeps the invariant; groups, hashes and rows never vanish, counters and versions never fall |
| ServerRuns.AuthorizationSurvives | sync/server/app.py:302-329 | a request authenticated in one section acts on a group that still has that hash, whatever ran in between |
| ServerRuns.AdmittedPushActs | sync/server/app.py:302-329 | an admitted push keeps its place through any interleaving and, when its thread acts, is turned down above 1000 records, raises in a transaction left open, and otherwise is upserted into the tables of that moment |
| ServerRuns.AdmittedPullActs | sync/server/app.py:160-176 | an admitted pull answers with the rows of its group above its cursor in its collection, from the tables at the moment it acts |
| ServerRuns.FirstRegistrationWins | sync/server/app.py:80-100 | the first hash and salt of a group stay through any run; a later pairing raises iff its hash is null or one of the two is not ASCII, else succeeds iff it brings the same hash |
| ServerRuns.ReachableStates | sync/server/app.py:109-158 | in every reachable state a group's counter is the number of writes ever accepted for it, and the table invariant holds |
| ServerRuns.GroupsDoNotInterfere | sync/server/app.py:80-176 | a group's replies in any interleaved run are those of running its own sections alone iff no push of it that would commit meets an open transaction in just one of the two; its tables are then the same too |
| ServerRuns.CleanRunsDoNotInterfere | sync/server/app.py:80-176 | in a run without refused pairings no group sees anything of another |
| ServerRuns.RefusedPairingCostsAPush | sync/server/app.py:90-99 | after a refused pairing of one group, a push of another raises that would commit without it |
| Replica.PullMirrors | sync/server/app.py:160-176 | one pull makes an up-to-date replica exact and keeps it up to date |
| Replica.NothingSentTwice | sync/server/app.py:160-176 | from the returned cursor, unchanged tables have nothing more to send |
| Replica.PullConverges | sync/server/app.py:109-176 | for every interleaving with any other traffic, right after each pull the replica holds exactly the server's rows of its group and, if it names one, its collection, column by column, and its cursor has passed them all |
| Replica.MirrorsAgree | sync/PROTOCOL.md:172-174 | devices whose copies are exact agree |
| Replica.SharedCursorMisses | sync/server/app.py:160-176 | one cursor used for two filters misses a row, so the promise is per filter |
| LastWriterWins.StoredIsFirstOfHighest | sync/server/app.py:124-150 | after any run, a slot has a row iff a committed record addressed it, and the row is the first arrival of the highest version |
| LastWriterWins.AdmittedPushIsStored | sync/server/app.py:302-329 | in any run from the empty server an admitted push of storable records commits where it acts, and from then on each of its slots is stored at its version or a higher one |
| LastWriterWins.OrderIndependent | sync/server/app.py:131-150 | two histories that continue one log with the same records, in any order and with any repetition, leave the same record in every slot if the records at the top of each slot carry one payload |
| LastWriterWins.OrderIrrelevantIff | sync/server/app.py:131-150 | however a collection of records is ordered, repeated and batched, a group with a given log stores the same iff those top records agree |
| LastWriterWins.RebatchingIsIrrelevant | sync/server/app.py:109-158 | the same equivalence in every reachable state of the server |
| LastWriterWins.OrderMattersWithoutIt | sync/server/app.py:131-136 | the smallest failing case: two payloads at one version, in two orders |
| Progress.RebaseAcceptedIff | sync/server/app.py:126-150 | a retry at the reported version plus one is accepted iff that is a 64-bit value; otherwise it raises and nothing changes |
| Progress.TryDecreases | sync/client/reference_client.py:301-309 | each push by a client with work lowers an explicit measure, and the counter rises by the updates that are no longer pending |
| Progress.PushesBounded | sync/client/reference_client.py:301-309 | under any schedule the number of pushes sent is bounded by the measure at the start |
| Progress.AllUpdatesAccepted | sync/client/reference_client.py:301-309 | under any fair schedule all intended updates of all clients are accepted, one counter tick each, if each slot has room below 2^63 for the updates pending on it |
| Progress.CompletesIff | sync/client/reference_client.py:301-309 | enough fair rounds complete all updates iff every row has that room |
| Progress.StaleOnlyByWrite | sync/server/app.py:131-136 | a push that was not stale becomes stale only through another client's accepted write to the slot |
| Progress.FailedRetryIsCharged | sync/client/reference_client.py:304-306 | between two failures in a row of one client lies such a write by another |
| Progress.FailuresAreCharged | sync/client/reference_client.py:301-309 | over any schedule a client fails at most once per accepted write of others to the slot it is working on, plus once per own update |
| Progress.RowsAreSealed | sync/client/reference_client.py:301-309 | after any schedule every row is an old one or an update encrypted for exactly the version it is stored under |
| Base64Url.PaddingRestored | sync/client/reference_client.py:53-60 | encodings are ASCII without padding, never of length 1 mod 4, and decoding restores exactly the padding that was stripped |
| Base64Url.RoundTrip | sync/server/app.py:227-233 | decoding inverts encoding on every byte string |
| Base64Url.EncodeInjective | sync/client/reference_client.py:53-55 | different byte strings have different encodings |
| Base64Url.EncodedLength | sync/client/reference_client.py:53-55 | n bytes take ceil(4n / 3) characters |
| Base64Url.EncodedDigits | sync/client/reference_client.py:53-55 | character k is the k-th six bits of the data in the URL-safe alphabet |
| Base64Url.DecodeNotInjective | sync/server/app.py:231-233 | the decoder accepts several spellings of the same bytes |
| Base64Url.ScanSkips | sync/server/app.py:231-233 | the decoder skips characters outside its alphabets |
| Base64Url.DecodesIff | sync/server/app.py:231-233 | text of digits decodes iff its length is not 1 mod 4 |
| Utf8.EncodeInjective | sync/client/reference_client.py:133-134 | encoding text loses nothing |
| Utf8.EncodedByTable | sync/client/reference_client.py:133-134 | each character is encoded by the table of RFC 3629, shortest form |
| KeySchedule.HkdfSha256 | sync/client/reference_client.py:65-77 | the loop returns the first L bytes of T(1), T(2), ... of RFC 5869, and raises iff L exceeds 255 * 32 |
| KeySchedule.HkdfBytes | sync/client/reference_client.py:65-77 | byte k of the output is byte k mod 32 of T(k / 32 + 1), with T chained over MACs as in RFC 5869 |
| KeySchedule.ShorterIsPrefix | sync/client/reference_client.py:65-77 | a shorter output is a prefix of a longer one |
| KeySchedule.KeysOfLabels | sync/client/reference_client.py:101-108 | the three keys, and the 16 bytes behind the group id, are MACs of their four labels under the MAC of the root |
| KeySchedule.EqualKeysNeedCollision | sync/client/reference_client.py:44-48 | keys of different labels are equal only if the MAC has a collision |
| Aead.Sha256CtrKeystream | sync/client/reference_client.py:145-157 | the loop returns the first n bytes of the counter blocks and raises iff a counter would not fit 8 bytes |
| Aead.CountersDistinct | sync/client/reference_client.py:154-156 | the 8-byte big-endian counters of different blocks differ |
| Aead.XorBit | sync/client/reference_client.py:164 | exclusive or, bit by bit |
| Aead.KeystreamByte | sync/client/reference_client.py:145-157 | byte k is byte k mod 32 of the hash with counter k / 32 |
| Aead.KeystreamPrefix | sync/client/reference_client.py:145-157 | the keystream is prefix-stable in its length |
| Aead.EncryptedByte | sync/client/reference_client.py:145-166 | a bit of byte i of the ciphertext differs from the plaintext's iff it is set in byte i mod 32 of the hash of key, nonce and the big-endian counter i / 32 |
| Aead.EncryptedTag | sync/client/reference_client.py:160-166 | the last 32 bytes of a blob are the MAC of associated data, nonce and ciphertext |
| Aead.DecryptIffEncrypted | sync/client/reference_client.py:160-179 | a blob decrypts to a text iff it is that text's encryption, at every length, under the same nonce and associated data |
| RecordAad.StringRoundTrip | sync/client/reference_client.py:223-228 | a reader recovers every string from its escaped JSON text and finds where it ends, surrogate pairs included |
| RecordAad.SpelledAsJsonDumps | sync/client/reference_client.py:223-228 | any other character has the one spelling json.dumps chooses: short escape, itself, or four lower-case hexadecimal digits |
| RecordAad.SpelledInSurrogates | sync/client/reference_client.py:223-228 | a character above the basic plane is written as its two surrogates |
| RecordAad.FieldsRoundTrip | sync/client/reference_client.py:223-228 | and the four fields from the JSON array, whatever follows |
| RecordAad.AadUniquelyDecodes | sync/client/reference_client.py:223-228 | the associated data is an injective and prefix-free encoding of collection, id, version and tombstone |
| RecordAad.MacInputUniquelyDecodes | sync/client/reference_client.py:160-166 | with nonces of 24 bytes the MAC input determines the four fields, the nonce and the ciphertext |
| RecordCipher.StoredRecordDecrypts | sync/client/reference_client.py:184-220 | the row an encrypted record becomes decrypts to the edit's text, empty for a tombstone |
| RecordCipher.SealedRecord | sync/client/reference_client.py:184-210 | the record of an edit: the fields in clear, the nonce, and a ciphertext ending in the MAC of the compact JSON of its labels, the nonce and the encrypted text |
| RecordCipher.SealedText | sync/client/reference_client.py:201-203 | the encrypted text is the plaintext with the keystream bits flipped |
| RecordCipher.DecryptsOnlyEncryptions | sync/client/reference_client.py:211-220 | a record that decrypts is an encryption of that text under its own nonce, slot, version and tombstone |
| RecordCipher.RelabellingNeedsCollision | sync/client/reference_client.py:189-192 | a ciphertext decrypts under another slot, version or tombstone only if the MAC has a collision |
| EndToEnd.PulledMeansLatestEdit | sync/client/reference_client.py:184-220 | over any run, a pulled record is the first committed one of the highest version of its slot and decrypts to the text of its edit |
| EndToEnd.RebasedUpdatesDecrypt | sync/client/reference_client.py:301-309 | whatever conflicts a schedule met, each new row decrypts to the text of an update to its slot at the version it is stored under |
| EndToEnd.SignedPushIsStored | sync/client/reference_client.py:289-309 | a paired device's signed push, after any traffic and with any traffic before it acts, commits and is stored from then on |
| RequestAuth.AdmittedIffVerified | sync/server/app.py:202-219 | the authentication step of a run is verify_request |
| RequestAuth.VerifyExactly | sync/server/app.py:202-219 | for every input: which token and proof are accepted, which stored hash makes the check raise, and that all else is rejected |
| RequestAuth.SignedIsAccepted | sync/server/app.py:202-219 | a request signed with the registered keys over the received method, path and body is accepted |
| RequestAuth.PairedIsAcceptedForever | sync/client/reference_client.py:110-135 | once paired, in every later state of the server |
| RequestAuth.AcceptedProvesKnowledge | sync/server/app.py:202-219 | an accepted request presents a key with the registered digest and the MAC of exactly this transcript under it |
| RequestAuth.TranscriptBinds | sync/client/reference_client.py:127-135 | the transcript determines method, path and body digest for methods without newline, whatever the path |
| RuleMatching.HostMatchesLabels | audit/checker.py:82-112 | a wildcard accepts exactly the hosts with strictly more labels that end with its base's labels; another pattern exactly its own labels |
| RuleMatching.RaisesIff | audit/checker.py:95-112 | matching raises exactly for an empty pattern and for a star that is not the whole first label in front of a base |
| RuleMatching.NeitherApexNorLookalike | audit/checker.py:88-90 | a wildcard accepts neither the apex nor a name that merely ends in the same letters |
| RuleMatching.PortIsIgnored | audit/checker.py:72-79 | a numeric port has no influence |
| RuleMatching.FinalDotIsIgnored | audit/checker.py:72-79 | nor has a dot at the end |
| RuleMatching.NormalForm | audit/checker.py:72-79 | a host without colon loses white space around it, upper case and the dots at its end |
| RuleMatching.NormalFormWithPort | audit/checker.py:72-79 | with a colon: the text after the last one goes with it iff it is one or more digits |
| RuleMatching.PathMatchesSegments | audit/checker.py:115-125 | path prefixes match by whole segments, strictly if the prefix ends in a slash |
| Checker.ValidateAllowlist | audit/checker.py:168-201 | accepts exactly the allowlists all of whose rules are well formed |
| Checker.ValidRuleIff | audit/checker.py:168-201 | a rule is valid iff host and reason have more than white space, stars are in place and a path prefix starts with a slash |
| Checker.ValidEntryIff | audit/checker.py:143-165 | an entry is valid iff four fields have more than white space and the url is absolute |
| Checker.ValidatedNeverRaises | audit/checker.py:128-136 | a rule that passed validation raises on no flow |
| Checker.RuleMatchesInParts | audit/checker.py:128-136 | a validated rule matches iff its pattern covers the flow's host label by label and its prefix, if any, the path segment by segment, an empty path being the root |
| Checker.AnyRuleMatches | audit/checker.py:274 | whether some rule explains the flow |
| Checker.Judge | audit/checker.py:257-280 | a flow goes unreported iff a rule of its own scenario explains it, else the reason is the right one of three |
| Checker.CheckFlows | audit/checker.py:242-281 | reports a bad allowlist, else the first malformed flow, else precisely the unexplained flows in order, each with the right reason |
| Checker.UnexplainedExactly | audit/checker.py:255-280 | a flow is reported iff it was captured and no rule of its own scenario explains it |
| Checker.UnexplainedConcat | audit/checker.py:254-281 | the verdict distributes over concatenation |
| Checker.OnlyOwnRulesMatter | audit/checker.py:257-274 | rule order, repetition and other scenarios' rules are irrelevant |
| Checker.MoreRulesFewerViolations | audit/checker.py:258-274 | adding rules or scenarios only removes violations |
| Checker.EmptyMeansExplained | audit/checker.py:249-250 | an empty list means every flow is explained, and conversely |
| AuditRun.ControlFile.AnnounceScenario | audit/capture.py:77-79 | the file shows the announced scenario |
| AuditRun.RunScenarios | audit/scenarios/driver.py:304-328 | announces the sentinel, then each started scenario followed by the sentinel, also after a scenario that raised, which is the last |
| AuditRun.CaptureAddon.OnRequest | audit/capture.py:115-126 | appends a flow with the url, method, host and time of the request and the scenario the control file shows, and dumps the list |
| AuditRun.StepsOfOneRequest | audit/capture.py:115-126 | the three atomic steps of a request, uninterrupted, do the same |
| AuditRun.ReadsControlFile | audit/capture.py:82-88 | the control file shows its text without white space around it, the sentinel if there is none |
| AuditRun.RunKeepsInv | audit/capture.py:60-135 | in every interleaving each captured flow carries the scenario announced last before its stamp was read, and the flows file lacks at most the flow being written |
| AuditRun.FlowsAreRequests | audit/capture.py:115-122 | in every interleaving the i-th flow has the url, method, host and time of the i-th request the addon read |
| AuditRun.KillLosesAtMostOne | audit/capture.py:123-135 | stopped anywhere, the flows file is a complete dump in order; it has all requests that arrived iff the addon is between two requests, and lacks exactly one otherwise |
| AuditRun.KillLosesOne | audit/capture.py:123-135 | a kill between append and dump loses the request |
| AuditRun.PassMeans | audit/scenarios/driver.py:319-328 | PASS means, over all interleavings: the i-th request, if the file shows it, was stamped between the announcement of a scenario and the sentinel that closes it, and a rule of that scenario covers the request's own host by labels and its path by segments |
| DepsResolver.LoadDepMap | tools/_deps.py:52-61 | the loop builds the map of the normalised keys of the git entries |
| DepsResolver.LastEntryWins | tools/_deps.py:53-60 | its keys are exactly those, each with the pin of the last entry that has it |
| DepsResolver.PinReassembles | tools/_deps.py:55-58 | an entry counts iff its url has an at-sign; repository and commit are the url split at the last one |
| DepsResolver.KeyReassembles | tools/_deps.py:59-60 | a key is the local path without src/ in front and slashes at the end |
| DepsResolver.KeysHaveNoFinalSlash | tools/_deps.py:59-60 | no key ends in a slash |
| DepsResolver.LongestUnique | tools/_deps.py:67-71 | the longest covering key is unique |
| DepsResolver.Resolve | tools/_deps.py:64-76 | for every order of visiting the map the loop returns the resolution, and there is one iff the segments of some key begin those of the path |
| DepsResolver.ResolutionInSegments | tools/_deps.py:64-76 | complete and exact: an answer iff the segments of some key begin those of the path, and then the pin of the one with the most segments and the rest of the path |
| DepsResolver.ResolutionReassembles | tools/_deps.py:74-76 | key, slashes and subpath make up the path again, with at least one slash unless the path is the key |
| PinnedSources.PinnedSourceFetcher.GetFile | tools/validate_patches.py:101-132 | one call: answer, new cache and counters, or death when offline without a cached answer; every other call adds one to downloads, hits and markers together |
| PinnedSources.GetAgrees | tools/validate_patches.py:101-132 | a truthful cache answers as the uncached look-up in sources and sub-repositories, and stays truthful |
| PinnedSources.FoundWhere | tools/validate_patches.py:115-120 | the uncached look-up: the main repository, else the sub-repository of the deepest key that leads to the path, at its pin |
| PinnedSources.EveryCallAgrees | tools/validate_patches.py:101-132 | so does every call of every sequence |
| PinnedSources.FetchedOnce | tools/validate_patches.py:105-112 | a second call for a path is a cache hit |
| PinnedSources.NeverBoth | tools/validate_patches.py:105-112 | content and absence marker of a path never coexist |
| PinnedSources.CallsAccounted | tools/validate_patches.py:107-132 | over any sequence of calls downloads, hits and the markers added below the cache root make up the calls |
| PinnedSources.MarkerMistakenForFile | tools/validate_patches.py:106-109 | after a file was found absent, the name of its marker is answered with the marker |
| PinnedSources.FileMistakenForMarker | tools/validate_patches.py:106-112 | a fetched file named like a marker hides the file it seems to mark |
| PinnedSources.TransparentIff | tools/validate_patches.py:101-132 | from an empty cache every call of every sequence over a set of names is answered as without a cache iff, for each name asked for together with its marker's, the file exists and the other does not, or the file is absent and the other empty |
| SeriesValidation.Materialize | tools/validate_patches.py:144-156 | fetches exactly the pre-images the tree lacks and counts those absent at the pin; dies iff offline with one of them not cached |
| SeriesValidation.ValidateSeries | tools/validate_patches.py:159-190 | the loop over the series computes the sparse run and returns zero iff it met no problem; dies iff offline and some patch, in its turn, lacks a file the cache does not have |
| SeriesValidation.StepAgrees | tools/validate_patches.py:167-178 | one patch: no problem on the sparse tree iff it applies to the full one, and the trees agree afterwards |
| SeriesValidation.SparseRefinesFull | tools/validate_patches.py:159-190 | the whole series applies to the full pinned tree iff validation returns zero, no patch expects a file deleted earlier and none creates an untouched file of the pin; the sparse tree is then the full result on the touched files, all others are as at the pin |
| SeriesValidation.ReadAfterDeletePasses | tools/validate_patches.py:147-156 | validation passes a series that reads a deleted file, which fails at build time |
| SeriesValidation.CreateOverExistingPasses | tools/validate_patches.py:172-178 | and one that creates a file existing at the pin |

## Left out

- Progress.CompletesIff: the room of the rows is exact, that no client starts too close to 2^63 is assumed. Only the group's own clients push, one record at a time.
- SyncStore.Store.CreateGroup: a salt that SQLite refuses is not modelled.
- Replica.PullConverges: a pull is one step, from the query's lock section to the folded copy; a lost response is a pull of somebody else. Collecting old tombstones out of band, which the protocol allows an operator, is not part of the runs.
- SyncStore.Store.UpsertRecords: the seq counter is unbounded, so its overflow after 2^63 accepted writes is not modelled.
- Aead.DecryptIffEncrypted: plaintexts beyond 2^64 blocks, where struct.pack raises, are covered by Sha256CtrKeystream only.
- RequestAuth.TranscriptBinds: binds the body's digest; that digests of different bodies differ is a cryptographic assumption and not claimed.
- AuditRun.PassMeans: speaks of the time at which the addon read the control file, which is what the code records, not of when the browser opened the connection.
- SeriesValidation.SparseRefinesFull: a file of length zero at the pin, over which GNU patch lets a patch create, is outside the assumption on the patch tool.
- SeriesValidation.ValidateSeries: no pre-image ends in `.ABSENT`; TransparentIff says what such names would need.
- HTTP parsing, headers, body limits, status codes, JSON bodies, the health endpoint, the malformed-record check of the push handler.
- SQLite: tables are maps, a transaction is the table restored on failure, and ORDER BY is a loop over the least seq. The creation time of a group is omitted.
- Key derivation from the passphrase (PBKDF2), random nonces, key separation, timing of comparisons and any other cryptographic strength.
- Types of JSON values in flows and allowlists beyond one malformed flow and one wrong-typed rule field; ValueError of urlsplit.
- Unknown scenario names, Playwright, browser and proxy processes, waiting and time-outs; each scenario body either finishes or raises.
- The clock that replaces a missing request time, the temporary files of atomic writes, and file system errors.
- Network errors and retries of the source fetcher, directories in place of files in its cache, the isolated mode of the patch validator, GNU patch itself, parsing of patch headers.
- audit.py, fetch, build, apply and convention scripts, the patches, branding and platform files.
