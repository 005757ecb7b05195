# Registry server: a verified model

This project models the stateful cores of the package registry server and
proves what they are relied on for, over every input, every run and every
interleaving. `dafny verify dfyconfig.toml` checks all of it.

How the parts are modelled:

- **Protocols** (publication, the local artifact store, the audit log,
  organisation claims) are step systems: a state, an action per atomic step of
  the code (a read, an insert under a unique index, a link, a commit, a crash),
  and `Next` and `Run` functions. An action that is not enabled leaves the state
  alone, so a run is any sequence of actions by any number of participants.
- **Objects the source changes in place** (the rate limiter, the memory store,
  the key table, the registry tables, the text buffers the emitters append to)
  are classes. Each method is tied to a specification function of the old
  state, and the lemmas are about that function.
- **Loops over bytes and text** (the ZIP directory walk, the audit verifier, the
  negotiation fold, the emitters) are methods proved against a recursive
  specification. The text formats also have an independent reader.
- **Answers** (`RateLimiterAnswers`, `PublisherKeyAnswers`, `ZipHeaders`, and the
  lemmas named `...Answers` and `...Means` elsewhere) say which outcome each input
  gets and what is left, without the functions that compute it.

The SHA-256 digest, the chain digest, the signature check, UTF-8 decoding, case
folding and the registered media types are parameters. A law that needs an
injective digest says so in a `requires`.

Where the code and its documentation or its apparent intent differ, the model
follows the code:

- The migration's header says legacy audit rows get `seq = 0`
  (migration/src/m20260726_000008_audit_chain.rs:15); the statement ranks them
  1..n.
- The stored `prev_hash` column decides neither the verifier's verdict nor the
  head (src/audit.rs:246-299); it only words the fault of a broken chain:
  `AuditChain.StoredPrevHashIsUnchecked`.
- `put_keys` checks the first entry under a key id but applies the last one, so
  a request that names a revoked key twice reinstates it:
  `PublisherKeys.RepeatedIdReinstates`, with the exact condition in
  `PublisherKeys.RevocationSurvivesIff`.
- The retry comparison of `publish` covers six columns and leaves out the
  publication time, the mirrors and the signatures, so a retry that is signed
  anew counts as the same release and the stored signatures stay:
  `Publication.ResignedRetryIsReconciled`.
- The advertised retry time saturates in a `u64`. For the settings a limiter can
  be built with, waiting that long is always enough exactly when a token refills
  within `u64::MAX` seconds, some 5.8e11 years:
  `RateLimitingRuns.AdvertisedWaitSufficesForSettingsIff`.
- One verification request walks the first 50,000 rows (src/routes/audit.rs:29).
  For a longer log the reported head is that of the walked rows, and a change
  beyond them goes unseen: `AuditChain.ReportedHeadCoversWalkedRows`.
- `put_signed_index` reads the counter, compares, and writes it later without
  comparing again, so it can undo what happened in between. `SignedIndex` says
  which schedules are safe, and when one raced upload lowers the counter.
- The YAML emitter pads an array that is itself an item of an array as if it
  stood on its own line. Such a document reads back only when the inner array
  takes one line (`YamlRoundTrip.YamlReadsBackIff`). Otherwise it is refused or
  silently changed: `YamlReading.YamlReadsAs` says what every document reads as,
  `YamlRoundTrip.SettledIsNeverMisread` gives a condition under which it is never
  changed, and two families of documents show that the condition is tight. The
  documents the server builds itself (src/routes/graph.rs:411-482) hold arrays of
  objects, and in those only arrays of strings, so as far as this source shows
  they have no such arrays; the document type is not part of it.
- U+007F is written verbatim, which TOML 1.0 forbids:
  `TomlRoundTrip.TomlReadsBackIff`. Requirement strings are copied from the
  manifest, and whether its validation keeps the character out is not part of
  this source.
- A null is written as the empty string in both text forms, as the code says it
  is (src/routes/graph.rs:907-911) for an arm it calls unreachable. The round
  trips cover that arm too, and name null as what breaks them.
- `index_sequence` is 2 after a package's first publication: the row is
  inserted with 1 and then bumped in the same transaction
  (src/routes/publish.rs:584-628).

## Model

| member | source | states |
|---|---|---|
| Publication.NextKeepsInvariant | src/routes/publish.rs:212-349 | Every step of any request, of a yank, or an abort at any point, keeps: rows backed by matching blobs, row locks held by open transactions, one winner per version whose row is the winner's in every column, counters equal to version counts. It also keeps every blob and every column of every row but `yanked` |
| Publication.RunIsSafe | src/routes/publish.rs:212-349 | Between any two points of any run no blob changes or goes away, no version row goes away, and of its columns, publication time, mirrors and signatures included, only `yanked` may differ |
| Publication.PublicationIsSafe | src/routes/publish.rs:79-349 | For any number of publishers in any interleaving with crashes and rollbacks: each committed row names a stored blob of the row's length and digest; at most one request is told it published a given version, and that row is its own in every column; the canonical plane holds only committed facts; the package counter follows the number of versions |
| Publication.MetadataMovesWithVersions | src/routes/publish.rs:556-631 | A package's description and counter change only in a commit that adds exactly one version of it, so a failed publication never rewrites them |
| Publication.CommitAddsOneVersion | src/routes/publish.rs:265-349 | A commit adds one version to its own package, none to any other, and the counter still matches the count |
| Publication.MatchingRetryReconciles | src/routes/publish.rs:212-258 | A retry that agrees on the six compared columns ends in a conflict, repairs the canonical projection, and changes nothing else |
| Publication.ResignedRetryIsReconciled | src/routes/publish.rs:212-258 | A retry of a published request with any other signatures is reconciled like the original, and the row keeps the signatures it had |
| Publication.HandledIsSafe | src/routes/publish.rs:212-349 | A handler run on its own is one of the runs of the step system: it keeps the invariant and all immutable facts |
| Publication.Registry.Publish | src/routes/publish.rs:79-349 | The in-place handler leaves exactly the state of the uninterrupted protocol run and keeps every published fact. With a digest that identifies bytes it refuses a wrong digest or size, reports a taken version, and publishes everything else, as `PublishedAs` says column by column |
| Publication.Registry.Yank | src/routes/yank.rs:37-46 | Sets the flag of an existing row as asked and nothing else; reports a missing one |
| Publication.HandledAnswers | src/routes/publish.rs:79-349 | Alone, a request whose digest or size is wrong is rejected, one for a taken version conflicts, and neither moves a table or the store; any other is published: its artifact stored, exactly its row added, its package described anew and counted on |
| Publication.ReachableAnswers | src/routes/publish.rs:79-349 | The same from whatever any run from an empty store has committed |
| Publication.LoserIsToldConflict | src/routes/publish.rs:265-349 | A request that finds its version taken at the insert is told so, changes no table, and leaves no lock |
| Publication.NextKeepsLocksLive | src/routes/publish.rs:556-631 | Every row lock belongs to an open transaction on that package: an ended request, however it ended, blocks nobody |
| Publication.FlagIsLastYank | src/routes/yank.rs:37-46 | Over any run a version's yank flag is the one last asked for: no publication, retry or abort touches it |
| SignedIndex.SafeScheduleIff | src/routes/mirrors.rs:154-176 | For a schedule of publications and uploads: `index_sequence` never decreases, whatever i64 sequences the documents carry, if and only if between no upload's read and its write there lies a publication or the write of another upload that has read, except where publications alone have brought the counter to the i64 ceiling |
| SignedIndex.ImmediateWritesAreSafe | src/routes/mirrors.rs:154-176 | In particular uploads that write right after they read never lower it |
| SignedIndex.RacedUploadLowersIff | src/routes/mirrors.rs:154-176 | An upload read before n publications and written after them lowers the counter if and only if its sequence is below what they made of it, or does not fit i64; the counter just before and after is given in numbers |
| SignedIndex.RefusedIsNeverWritten | src/routes/mirrors.rs:154-176 | An upload is refused exactly when its sequence is below the counter it reads, and a refused one never writes, whatever happens next |
| ArtifactStore.MemoryStore.PutVerified | src/storage.rs:116-165 | The in-place memory put has the write-once outcome, including the capacity check over the overflow-checked total of all objects |
| ArtifactStore.PutIsWriteOnce | src/storage.rs:136-165 | Visible bytes never change; success makes exactly the given bytes visible; failure changes nothing; repeating a success succeeds and changes nothing |
| ArtifactStore.PutAnswers | src/storage.rs:136-165 | Which answer a put gets, each if and only if: a malformed digest, other bytes under the key, no room, and success otherwise |
| ArtifactStore.KeyIsAddressed | src/storage.rs:645-647 | The 64 digits of the digest stand in the key after `artifacts/`, then a dot and the extension |
| ArtifactStore.KeyDecides | src/storage.rs:645-647 | Two keys of well-formed digests are equal if and only if digests and extensions are |
| ArtifactStore.RetainedBytes | src/storage.rs:136-165 | The checked sum is the total size of all objects, and none exactly when that total passes u64 |
| ArtifactStore.HashReader | src/storage.rs:377-398 | Over any split of the stream into reads: the length and digest of the whole when it is not too long, otherwise a length that shows it is too long |
| ArtifactStore.LocalObjectMatches | src/storage.rs:305-320 | Holds exactly when the existing file has the expected length and digest |
| LocalStore.StepRefinesPutIfAbsent | src/storage.rs:216-303 | Each stage, sync, link, compare, clean-up or crash step either leaves the visible objects alone or makes one writer's complete bytes appear at an absent key |
| LocalStore.RunIsWriteOnce | src/storage.rs:216-303 | Over every interleaving with failures and crashes an object once visible never changes and is never removed |
| LocalStore.VisibleObjectsAreWhole | src/storage.rs:216-320 | Every visible object is the complete bytes of some submitted job, and every writer that returned Ok left an object of its own length and digest |
| LocalStore.LoneWriterReturns | src/storage.rs:216-320 | A writer left alone returns Ok if and only if its key was absent or held an object of its length and digest; the key then holds its bytes or what it held |
| LocalStore.LostLinkAnswers | src/storage.rs:260-303 | A writer that loses the race to link answers by the length and digest of what the winner linked |
| RateLimiting.RateLimiter.NewWithLimit | src/ratelimit.rs:74-90 | Starts empty, with the settings below |
| RateLimiting.Settings | src/ratelimit.rs:74-90 | A zero burst or bucket limit becomes exactly one, and a rate that is not finite and positive becomes one per second; anything else is taken as given |
| RateLimiting.RateLimiter.CheckSerialized | src/ratelimit.rs:124-165 | The in-place check performs the specified step and answer, including a refused clock rewind, reclaiming under pressure, and the refusal when nothing can be reclaimed |
| RateLimiting.RateLimiter.SweepSerialized | src/ratelimit.rs:184-204 | The sweep drops exactly the buckets that are safe to forget |
| RateLimiting.CheckKeepsInvariant | src/ratelimit.rs:124-165 | The map stays within its bound, and balances stay within 0 and burst |
| RateLimiterAnswers.CheckAnswers | src/ratelimit.rs:124-165 | Each answer if and only if: refused for the clock when it went back; for capacity when the key is new and as many buckets as may be held are each idle under 600 s or not refilled to the burst; otherwise allowed when the refilled balance is at least one, denied below |
| RateLimiterAnswers.CheckLeaves | src/ratelimit.rs:124-165 | What a check leaves: the key's bucket charged and stamped, every other as it was, and those idle and full gone only under pressure |
| RateLimiterAnswers.SweepLeaves | src/ratelimit.rs:184-204 | A sweep drops exactly the buckets idle for 600 s and refilled, unless the clock went back |
| RateLimiterAnswers.RetryIsLeast | src/ratelimit.rs:147-165 | The advertised wait is the least whole number of seconds, at least one, in which a token refills, or u64::MAX if that is less |
| RateLimiterAnswers.RoomMeansService | src/ratelimit.rs:134-146 | A new identity is served while there is room, whoever else is held |
| RateLimitingRuns.RunKeepsInvariant | src/ratelimit.rs:124-204 | The bound holds at every point of every run of checks and sweeps |
| RateLimitingRuns.EvictionInvisible | src/ratelimit.rs:124-204 | Every request not refused for capacity or clock rewind gets the answer of a limiter that never forgets and has been fed those same requests |
| RateLimitingRuns.AdmittedRateIsBounded | src/ratelimit.rs:124-204 | For every key and every window of length d, over any run with evictions and rewinds, at most burst + rate * d requests are admitted |
| RateLimitingRuns.AdvertisedWaitIsTight | src/ratelimit.rs:147-165 | After a denial and any traffic on other keys: once the advertised wait has passed (when it fits u64) the key is allowed unless refused for capacity; up to a second earlier, when the wait is at least 2, it is still denied |
| RateLimitingRuns.AdvertisedWaitSufficesIff | src/ratelimit.rs:147-165 | After one denial, waiting exactly the advertised time is enough if and only if the true wait fits the u64 it is cast to |
| RateLimitingRuns.AdvertisedWaitSufficesForSettingsIff | src/ratelimit.rs:74-165 | For all settings a limiter can be built with: the advertised wait is enough after every denial of every run if and only if rate * u64::MAX is at least one; for a slower rate, spending the burst reaches a denial where it is not |
| AuditChain.VerifyChain | src/audit.rs:246-299 | The verifier loop reports intact exactly for contiguous, correctly hashed chains, with the count and the last hash as head; otherwise it names the first entry that does not fit, and why |
| AuditChain.HeadCommitsToHistory | src/audit.rs:194-208 | With an injective digest, two intact chains of i64 positions with one head agree on length, order and every column by name: org, position, time, action, subject, actor token id and name, role, detail and hash |
| AuditChain.TamperingMovesHead | src/audit.rs:246-299 | If two logs both verify and differ in any of those columns of any chained row, or in their number or order, their heads differ |
| AuditChain.InputIffSameEntry | src/audit.rs:194-208 | Two rows give the digest one input if and only if the nine covered columns and the previous hash agree |
| AuditChain.EditIsDetected | src/audit.rs:246-299 | Edit any covered column of one entry of an intact chain, its hash kept: the verifier stops at that entry, with a hash mismatch if its position was kept, and otherwise, unless it is the first, with a gap at the position it had |
| AuditChain.StoredPrevHashIsUnchecked | src/audit.rs:246-299 | Rewriting the stored `prev_hash` of any rows of any log, intact or not, changes neither verdict, count, place of the fault nor head; only a changed entry and a rewritten link may be taken for each other |
| AuditChain.ReportedHeadCoversWalkedRows | src/routes/audit.rs:25-137 | Two logs whose walked rows verify report one head if and only if the walked rows record one history; rows beyond the first 50,000 do not matter |
| AuditProtocol.NextKeepsInvariant | src/audit.rs:77-190 | Each read-tip, plan, insert-if-free and bounded-retry step keeps the table contiguous and unforked, and every planned link honest, without any advisory lock |
| AuditProtocol.EveryRunVerifiesIntact | src/audit.rs:77-190 | After any interleaving of any number of writers each org's rows verify as intact, counting exactly the rows appended since the start, with the last as head |
| AuditProtocol.EveryRecordLandsOnce | src/audit.rs:77-190 | The rows added since the start and the writers told that their entry was recorded match one to one; each such row is chained and carries its writer's entry, with the actor's token id, name and role; rows that were there stay as they were |
| AuditProtocol.GivesUpOnlyAfterFour | src/audit.rs:77-190 | Over any run a writer that is not aborted gives up only after four slots it had planned for were taken |
| AuditProtocol.LoneWriterIsRecorded | src/audit.rs:77-190 | A writer nobody overtakes is recorded at the position after the tip, with its entry and the tip's hash |
| LegacyBackfill.BackfillLegacySeq | migration/src/m20260726_000008_audit_chain.rs:113-139 | Updating rows one by one gives every row the rank the statement defines on the original table |
| LegacyBackfill.RanksAreOrdered | migration/src/m20260726_000008_audit_chain.rs:134-139 | Rows of one org never share a rank, and rank by time, then id |
| LegacyBackfill.RanksAreExactlyOneToN | migration/src/m20260726_000008_audit_chain.rs:134-139 | An org's n rows get exactly the ranks 1..n |
| LegacyBackfill.BackfillIsIndexable | migration/src/m20260726_000008_audit_chain.rs:61-85 | The unique (org, seq) index can be created on the result |
| LegacyBackfill.BackfillStartsTheChain | migration/src/m20260726_000008_audit_chain.rs:61-85 | The migrated table meets the starting conditions of the append protocol |
| LegacyBackfill.UpgradedOrgVerifiesIntact | src/audit.rs:122-255 | Upgrade, then any interleaving of appenders: the org verifies as intact and only the chained rows are counted |
| ZipDirectory.ContainsZip64Extra | src/binary_artifact.rs:198-216 | The extra-field walk, for any bytes, stays in bounds and answers as its specification |
| ZipDirectory.WellFormedExtra | src/binary_artifact.rs:198-216 | On any encoded list of records it answers whether one has kind 1 |
| ZipDirectory.AllClearIsWellFormed | src/binary_artifact.rs:198-216 | Conversely it clears only bytes that are the encoding of records none of which has kind 1 |
| ZipDirectory.DescriptorPresence | src/binary_artifact.rs:87-197 | For any bytes the directory walk terminates in bounds, with the answer of its specification |
| ZipDirectory.WalkVisitsHeaders | src/binary_artifact.rs:87-197 | On the encoding of any list of central-directory headers (section 4.3.12 of PKWARE APPNOTE.TXT) the walk visits exactly those headers, in order |
| ZipDirectory.PresentIff | src/binary_artifact.rs:87-197 | Present exactly when one raw name is the reserved path, no other name resolves to it, the parser's count agrees and no header departs from the plain encoding |
| ZipDirectory.AbsentIff | src/binary_artifact.rs:87-197 | Absent exactly when no name is the reserved path under any spelling and the counts agree |
| ZipDirectory.VerdictIffNamesAreDistinct | src/binary_artifact.rs:87-197 | When the parser counts distinct raw names, a directory gets a verdict if and only if no raw name repeats, none is an alias of the reserved path, and, if the path is there, every header keeps to the plain encoding |
| ZipHeaders.DirectoryVerdict | src/binary_artifact.rs:87-197 | On any list of entries with named fields, encoded at the offsets of section 4.3.12 of PKWARE APPNOTE.TXT, every verdict: aliased, miscounted, absent, repeated, the first entry that is not plain with its complaint, or present |
| ZipHeaders.ViolationMeans | src/binary_artifact.rs:107-197 | An entry is plain if and only if its flag bit 3 is clear, no size, disk or offset field is all ones, and its extra field decodes without a kind-1 record; otherwise the complaint is the first of these that fails |
| ZipHeaders.ExtraMeans | src/binary_artifact.rs:198-216 | The extra-field walk clears exactly the encodings of records none of which is of kind 1, and finds ZIP64 exactly when a kind-1 record follows whole records |
| ZipHeaders.NamesMean | src/binary_artifact.rs:87-197 | The reserved path is recognised by its bytes, and another spelling by its normal form |
| ArchiveNames.NormalizedArchivePath | src/binary_artifact.rs:611-633 | The component loop resolves dots, separators and trailing dots and spaces as specified, and fails when `..` has nothing to remove |
| ArchiveNames.NormalizingIsIdempotent | src/binary_artifact.rs:602-633 | A normal form is its own normal form, for any folding that keeps plain components plain |
| ArchiveNames.AliasIffSameComponents | src/binary_artifact.rs:602-633 | Two names have one normal form if and only if they resolve to the same components |
| ArchiveNames.SeparatorsAreAlike | src/binary_artifact.rs:611-615 | Slash and backslash delimit alike, anywhere in a name |
| ArchiveNames.IdleComponentsVanish | src/binary_artifact.rs:616-629 | An empty component, ".", and one of dots and spaces only (".." aside) leave no trace, anywhere in a name |
| ArchiveNames.ParentCancels | src/binary_artifact.rs:618-622 | A component and the ".." after it cancel, anywhere in a name |
| ArchiveNames.TrailingDotsVanish | src/binary_artifact.rs:625-631 | Trailing dots and spaces of a component do not tell names apart |
| ArchiveNames.FoldedComponentsAreAlike | src/binary_artifact.rs:611-633 | Components that fold alike do not tell names apart |
| ArchiveNames.PlainPathIsFolded | src/binary_artifact.rs:611-633 | A path of plain components has exactly those, folded, as its normal form |
| ArchiveNames.ClimbingHasNoForm | src/binary_artifact.rs:618-622 | A path that climbs above its root has no normal form |
| PortablePaths.FirstFrom | src/binary_artifact.rs:336-371 | The ordered-map query yields the least key at or after its bound |
| PortablePaths.ExtensionsAreContiguous | src/binary_artifact.rs:336-371 | In key order, everything between a prefix and one of its extensions extends that prefix |
| PortablePaths.HasDescendantIn | src/binary_artifact.rs:336-371 | One successor query finds a descendant exactly when one exists |
| PortablePaths.HasAncestorIn | src/binary_artifact.rs:336-371 | The prefix scan finds a regular file above the key exactly when one exists |
| PortablePaths.CheckPaths | src/binary_artifact.rs:336-371 | The loop accepts exactly when portable keys are pairwise distinct and no regular file is a proper "/"-ancestor of another entry; the duplicate-file refusal never fires; every file is counted once |
| PortablePaths.OrderDoesNotMatter | src/binary_artifact.rs:336-371 | Acceptance is the same for every order of the same entries |
| PortablePaths.NamespaceMeans | src/binary_artifact.rs:336-371 | The accepted namespaces in terms of names with slashes for backslashes, folded: all different, and none of a regular file followed by "/" begins another |
| PayloadClosure.CheckClosure | src/binary_artifact.rs:444-471 | Two inclusions and a count accept exactly when the descriptor's list is free of duplicates and equals the archive's files minus the descriptor |
| JsonText.StringReadsBack | src/routes/graph.rs:999-1003 | Any text reads back from its literal, whatever follows it |
| JsonText.EscapesAre | src/routes/graph.rs:999-1003 | The spelling of each escaped character; every other stands for itself |
| JsonText.ScalarReadsBack | src/routes/graph.rs:893-911 | Every scalar reads back to itself, and null to the empty string |
| Yaml.WriteYaml | src/routes/graph.rs:852-912 | The recursive emitter appends exactly the specified text, first key of an item riding the dash |
| YamlReading.YamlReadsAs | src/routes/graph.rs:852-912 | For every document, what a reader that goes by columns makes of its YAML text, or that it makes nothing of it, as a function of the document alone: which lines a shifted array leaves behind, and which array takes them |
| YamlReading.NodeReadsAs | src/routes/graph.rs:852-912 | The same for every value at every indentation, before any text that follows |
| YamlReading.ShiftedReadsAs | src/routes/graph.rs:879-892 | The same for every value whose first line starts too far right, with the exact text it leaves |
| YamlRoundTrip.YamlReadsBackIff | src/routes/graph.rs:852-912 | A document reads back from its YAML exactly when it holds no null and every array that is an item of an array takes one line |
| YamlRoundTrip.NestedArrayAndNullDoNotReadBack | src/routes/graph.rs:880-911 | Concrete documents for both failures: an array of two items inside an array, and a null |
| YamlRoundTrip.YamlMisreadIff | src/routes/graph.rs:852-912 | A document is read as a different one exactly when some array within an array takes several lines and the reading still comes to an end |
| YamlRoundTrip.SettledIsNeverMisread | src/routes/graph.rs:879-892 | If no array within an array written at indentation n leaves a dash as far right as that array stands (2n + 2), the document is recovered or refused, never changed |
| YamlRoundTrip.ShallowIsNeverMisread | src/routes/graph.rs:879-892 | In particular with at most three arrays directly within each other, and no object with a member of several lines in an array that is an item |
| YamlRoundTrip.LongChainIsMisread | src/routes/graph.rs:879-892 | The bound is tight at every depth: of n + 3 arrays directly within each other, the outermost written at indentation n, any further items of the innermost are read as items of the second |
| YamlRoundTrip.BlockMemberIsMisread | src/routes/graph.rs:864-892 | So is the condition on objects: an object whose one member is an array, within n + 1 arrays of which the outermost is written at indentation n, loses the items to the second of them and keeps a null |
| YamlRoundTrip.LeastMisreadDocuments | src/routes/graph.rs:864-892 | The smallest two: `[[[[true, false]]]]` reads as `[[[[true]], false]]`, and `[[{"b": [true]}]]` as `[[{"b": null}, true]]` |
| Toml.WriteToml | src/routes/graph.rs:922-977 | The three passes emit inline members, then tables, then arrays of tables, as specified; anything but an object is refused |
| Toml.KindMeans | src/routes/graph.rs:969-977 | A non-empty object is a table, a non-empty array of objects an array of tables, anything else inline |
| TomlReading.InlineReadsBack | src/routes/graph.rs:979-997 | Every inline value reads back, nulls as empty strings, whatever non-number follows it |
| TomlReading.MoreEntriesRead | src/routes/graph.rs:947-966 | All `[[key]]` sections of an array land in that array, in order |
| TomlRoundTrip.OrderedIsPermutation | src/routes/graph.rs:922-977 | Emission reorders top-level members only: nothing lost, nothing doubled |
| TomlRoundTrip.OrderedByKind | src/routes/graph.rs:922-977 | Inline members come before tables and tables before arrays of tables; members of one kind keep their order |
| TomlRoundTrip.TextDelIff | src/routes/graph.rs:999-1003 | The text holds U+007F exactly when some key or string of the document does |
| TomlRoundTrip.TomlReadsAs | src/routes/graph.rs:922-997 | What the text reads back to, for every document: nothing if U+007F occurs, otherwise the members in emission order with nulls as empty strings |
| TomlRoundTrip.TomlReadsBackIff | src/routes/graph.rs:922-997 | A document reads back from its TOML, up to top-level order, exactly when it holds no null and no U+007F |
| TomlRoundTrip.DelAndNullDoNotReadBack | src/routes/graph.rs:979-1003 | Concrete documents for both failures |
| GraphForms.BothFormsDenoteOneDocumentIff | src/routes/graph.rs:809-850 | Both text forms read back to the one document exactly under the joined conditions |
| GraphForms.TextDeterminesDocument | src/routes/graph.rs:809-850 | Two such documents with equal text in either form have the same members |
| Csv.PushBounded | src/routes/graph_exports/csv.rs:279-293 | Appends the whole piece exactly when it fits under the limit, otherwise nothing |
| Csv.CsvField | src/routes/graph_exports/csv.rs:230-277 | A field is written whole, quoted and neutralised, exactly when it fits, otherwise not at all |
| Csv.CsvRecord | src/routes/graph_exports/csv.rs:217-228 | A record succeeds exactly when all of it fits, and the output never passes the limit |
| Csv.FieldTakesEncodedLen | src/routes/graph_exports/csv.rs:230-277 | Each field takes exactly the byte length computed before anything is written |
| Csv.FieldReadsBack | src/routes/graph_exports/csv.rs:230-277 | A reader for section 2 of RFC 4180 recovers the field, with an apostrophe in front exactly if it was spreadsheet-unsafe |
| Csv.FileReadsBack | src/routes/graph_exports/csv.rs:217-277 | Any sequence of records reads back field for field |
| Csv.NeutralIsSafe | src/routes/graph_exports/csv.rs:230-277 | No recovered cell begins like a formula |
| Csv.NeutralCollidesIff | src/routes/graph_exports/csv.rs:230-277 | Two different fields read back alike exactly when one is unsafe and the other is it with the apostrophe already in front |
| Csv.UnsafeMeans | src/routes/graph_exports/csv.rs:230-277 | A field is marked if and only if it begins with a tab or a line break, or its first character that is not white space is =, +, - or @ |
| Csv.QuotedIff | src/routes/graph_exports/csv.rs:230-277 | A field is quoted if and only if it is marked or holds a comma, a quote or a line break; any other is written as it is |
| CsvGraph.Encode | src/routes/graph_exports/csv.rs:30-161 | A document is written exactly when header and rows fit the limit, and the text reads back to them, cell by cell |
| CsvGraph.WriteRecords | src/routes/graph_exports/csv.rs:30-161 | Writing records in order succeeds exactly when all of them fit |
| CsvGraph.Rows | src/routes/graph_exports/csv.rs:163-206 | Every row has a cell for each of the header's twenty columns |
| CsvGraph.RowsDecideIff | src/routes/graph_exports/csv.rs:30-206 | Two documents have the same rows if and only if they show the same view and the same entries in the same order, a missing text counting as empty; only a resolved graph without entries leaves nothing behind |
| CsvGraph.PackageCells | src/routes/graph_exports/csv.rs:30-206 | What stands under each column name in the row of a declared package |
| CsvGraph.DependencyCells | src/routes/graph_exports/csv.rs:30-206 | The same for a declared dependency |
| CsvGraph.RootCells | src/routes/graph_exports/csv.rs:30-206 | The same for the root of a resolved graph |
| CsvGraph.NodeCells | src/routes/graph_exports/csv.rs:30-206 | The same for a resolved node |
| CsvGraph.EdgeCells | src/routes/graph_exports/csv.rs:30-206 | The same for a resolved edge |
| CsvGraph.Words | src/routes/graph_exports/mod.rs:308-334 | The word for each kind and completeness |
| CsvGraph.FeaturesDecide | src/routes/graph_exports/csv.rs:64-66 | The JSON cell determines the list of features |
| Negotiation.QualityIsQvalue | src/routes/graph.rs:698-709 | A quality parses exactly when it is a qvalue of section 12.4.2 of RFC 9110, to its value in thousandths |
| Negotiation.CanonicalAcceptMatch | src/routes/graph.rs:649-696 | The loop over a range's parameters computes the specified match or refusal |
| AcceptRanges.RangeMeaning | src/routes/graph.rs:649-696 | With k the first part named q, or the end: a range matches if and only if its type does (`*/*`, `type/*` or the very type) and every parameter before k is registered; its code is that of the type match and the number of those parameters, its quality the qvalue at k, 1000 without one, 0 if it is none |
| AcceptRanges.MeaningIsUnique | src/routes/graph.rs:649-696 | That k, the type match, the code and the quality are determined |
| AcceptRanges.MostSpecificRangeDecides | src/routes/graph.rs:601-696 | A format's quality is that of the matching range closest in type, then with most parameters (counted up to 255), then of best quality; there is none exactly when no range matches (section 12.5.1 of RFC 9110) |
| AcceptRanges.AfterQualityIsIgnored | src/routes/graph.rs:671-679 | Whatever follows a part named q makes no difference |
| AcceptRanges.AlikeRangesMatchAlike | src/routes/graph.rs:649-696 | Ranges that agree part by part, case of names and values, quotes around values and unreadable parts aside, match alike |
| AcceptRanges.CaseIsIgnored | src/routes/graph.rs:649-696 | Case makes no difference anywhere in a range |
| AcceptRanges.PaddingIsAlike | src/routes/graph.rs:671-690 | Space around a parameter's name and value makes no difference |
| AcceptRanges.QuotingIsAlike | src/routes/graph.rs:680-690 | Nor do quotes around a value, except a quality's |
| Negotiation.SpecificityIsLexicographic | src/routes/graph.rs:692-695 | The one-number code orders by type match, then by parameter count up to 255 |
| Negotiation.ParseAccept | src/routes/graph.rs:601-647 | The array of best matches holds, per format, the best over all ranges of all lines; absent and unreadable headers are told apart |
| Negotiation.ResolveFormat | src/routes/graph.rs:544-585 | The handler's decision is the specified one, including its two errors |
| Negotiation.BestIsTop | src/routes/graph.rs:601-647 | A format's match comes from its most specific range, and among those from the best quality |
| Negotiation.ResolutionDependsOnSet | src/routes/graph.rs:544-647 | The outcome depends only on the set of media ranges: not on order, repetition or spread over lines |
| Negotiation.LinesSplitAnywhere | src/routes/graph.rs:611-622 | Joining two field lines with a comma means the same as sending both |
| Negotiation.ChoosesHighestQuality | src/routes/graph.rs:565-584 | Without a query the chosen format has positive quality, none has more and none earlier in the order JSON, YAML, TOML, DOT, Mermaid as much; it fails exactly when every quality is zero (section 12.5.1 of RFC 9110) |
| Negotiation.QueryIsHonouredIff | src/routes/graph.rs:555-564 | An asked format is served exactly when the ranges, if any, leave it a positive quality |
| Negotiation.FormatNames | src/routes/graph.rs:587-596 | The names a query may use, in any case, and for which format; no other is known |
| Negotiation.WithoutRanges | src/routes/graph.rs:544-585 | Without a media range a known name is served as asked and JSON if none is; an unknown name or an unreadable header is not acceptable whatever else is sent |
| Negotiation.NothingAcceptable | src/routes/graph.rs:565-584 | Ranges that leave every format without quality get the unsupported-format error |
| Negotiation.HeaderIsAllLines | src/routes/graph.rs:601-622 | The ranges of all field lines in order, and none can be read if one line cannot |
| Negotiation.OneEntry | src/routes/graph.rs:611-622 | A piece between commas is a range if and only if it is not blank |
| PublisherKeys.StateNameReadsBack | src/routes/keys.rs:35-41 | Every key state survives being stored as text |
| PublisherKeys.KeyRing.PutKeys | src/routes/keys.rs:70-161 | The in-place update has the specified outcome; a refused request changes no row |
| PublisherKeyAnswers.AcceptedIff | src/routes/keys.rs:70-161 | A request is accepted if and only if it has at most eight keys, all valid, and names every enrolled id, the first entry under it carrying the same material and, if the row is revoked, the state Revoked; a refused one changes no row |
| PublisherKeyAnswers.RefusedBecause | src/routes/keys.rs:70-130 | Which error each refused request gets: too many keys, then an invalid one, then what the first row it does not keep says |
| PublisherKeyAnswers.AcceptedWrites | src/routes/keys.rs:131-161 | The last entry under an id decides state and reason, revocation included; an enrolled row keeps material, algorithm and time, a new one takes them from its first entry and the clock |
| PublisherKeyAnswers.AcceptedIds | src/routes/keys.rs:131-161 | The rows afterwards are exactly those enrolled and those named |
| PublisherKeyAnswers.StateTexts | src/routes/keys.rs:178-194 | "active" and "retired" are read as such and any other text as revoked |
| PublisherKeys.AcceptedKeepsMaterial | src/routes/keys.rs:92-161 | Whatever the request, an enrolled key is never lost or bound to other material |
| PublisherKeys.RevocationSurvivesIff | src/routes/keys.rs:92-161 | A revoked key stays revoked exactly when the request's last entry under its id says so |
| PublisherKeys.DistinctRequestKeepsRevocation | src/routes/keys.rs:92-161 | With distinct ids in the request, revocation is final |
| PublisherKeys.RepeatedIdReinstates | src/routes/keys.rs:92-161 | A concrete accepted request that reinstates a revoked key by naming it twice |
| PublisherKeys.AcceptedStaysSmall | src/routes/keys.rs:70-161 | An org never holds more than eight keys, nor two under one id |
| PublisherKeys.KeyHistory | src/routes/keys.rs:70-161 | Over any run of requests with distinct ids a key keeps its material for ever, stays revoked once revoked, and the bound holds |
| PublisherKeys.VerifyAny | src/signing.rs:26-63 | Accepts exactly when some signature holds under the first unrevoked key of its id, and returns such a key |
| PublisherKeys.UsableIsUnrevokedRow | src/signing.rs:26-63 | The key a signature is checked against is the enrolled row of that id, if not revoked |
| PublisherKeys.AcceptedUntilRevoked | src/signing.rs:26-63 | A signature that held keeps holding over any later history exactly until its key is revoked |
| PublisherKeyAnswers.HoldsIff | src/signing.rs:26-63 | A signature counts if and only if it is of the one algorithm and verifies under the material of an active or retired row of its id |
| OrgClaims.NextKeepsInvariant | src/routes/orgs.rs:112-168 | Each lock, count, insert, commit and end step keeps the quota, one claimant per slug, and every count taken under the lock still valid |
| OrgClaims.QuotaHoldsOnEveryRun | src/routes/orgs.rs:85-168 | Over every interleaving, whatever the lock hash: no scoped token owns more orgs than its quota, slugs keep their owner, and each slug is granted at most once |
| OrgClaims.LoneClaimAnswers | src/routes/orgs.rs:85-168 | A claim that nobody holds up is granted if and only if its slug is free and its token, if scoped, owns fewer orgs than the quota |
| OrgClaims.TakenSinceIsClosed | src/routes/orgs.rs:112-168 | A claim that finds its slug taken since it counted ends without an org and frees its lock |
| OrgClaims.NextKeepsLocksLive | src/routes/orgs.rs:112-168 | Every lock belongs to a claim still under way with a token of that hash |
| LikePattern.EscapeLikeIsPerCharacter | src/routes/search.rs:45-49 | Three successive whole-string replacements equal one per-character map |
| LikePattern.EscapedLiteralMatches | src/routes/search.rs:45-49 | As a pattern, an escaped literal consumes exactly itself |
| LikePattern.ContainsEscapedMatchesLiterally | src/routes/search.rs:51-53 | The pattern built from q matches s exactly when q occurs in s as a literal substring |

## Left out

- HTTP routing, authentication, multipart parsing, response shaping and tracing: no invariant beyond single branches.
- SQL execution and isolation levels: a transaction is its visible atomic steps, row locks and unique indexes.
- The S3 backend, presigning, public aliases and fsync durability: remote calls and disks are outside the model.
- SHA-256, Ed25519, the audit preimage, manifest parsing and canonical JSON: abstract functions or assumed inputs.
- ZIP inflation, magic bytes, size and ratio limits, Unix modes and the descriptor's content: the entry lists and counts are inputs.
- f64 rounding in the limiter: tokens and time are real numbers; the saturating cast to u64 is modelled.
- Unicode case folding: a function parameter with the stated laws.
- Publication.PublicationIsSafe: its counter clause is about packages created by publication; `put_signed_index` also writes the counter and is modelled apart, in `SignedIndex`, and rows older than the column start elsewhere.
- What `put_signed_index` checks of the document itself: validation and signatures are in code that is not part of this model.
- The package metadata and the manifest that canonical adoption also receives: its row here is the six release columns.
- AuditProtocol.EveryRecordLandsOnce: insert and commit are one step, so a commit that lands while its answer is lost is excluded; after one there is a row whose writer was told of a failure.
- Interleavings inside `put_keys`: the handler reads before it opens its transaction; here it is one atomic step.
- LIKE is modelled with case-sensitive characters and one pattern, not the collation or the query it is part of.
- The distributed claim guard and its lease (src/routes/orgs.rs:29-72): the quota is proved without it.
- The 1024-character limit that YAML 1.2 puts on an implicit key: the reader accepts longer ones.
- The document's encoded-size limit around the YAML and TOML emitters: a comparison after the fact.
- DOT and Mermaid renderings: declared non-authoritative, and not injective.
- The wording of error messages: refusals are told apart by kind only.
- RBAC, intake, storage reports, embeddings and virtual-host routing: case analysis only.
