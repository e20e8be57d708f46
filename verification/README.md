# chainlog-core, modelled and proved in Dafny

chainlog is a tamper-evident audit log: every entry carries the hash of the one before it, entries
live in segment files that can be pruned, one writer thread serialises all callers, private fields
are encrypted under keys that can be destroyed, and heads and Merkle roots over ranges can be signed.
This project models that core and proves what the log promises.

| module | what it models |
|---|---|
| `Bytes`, `Wrappers` | bytes, `u64` with wrap-around, big-endian and hexadecimal forms, results and errors |
| `Encoding`, `Entries`, `Hashing`, `Messages` | the length-prefixed encoding and the three kinds of bytes built with it |
| `Assumptions` | a serializer that meets what is assumed of `serde_json` |
| `Verify`, `History` | the chain verifier, and what a head hash or a checkpoint pins |
| `Signing` | signed checkpoints, and what an accepted signature says about the log |
| `Merkle`, `MerkleAnchors` | the RFC 6962 tree (sections 2.1 and 2.1.1), its proofs, and signed anchors over a log |
| `Store`, `SegmentNames`, `Segments`, `Pruning` | line files, the flat stores, the segmented store, retention |
| `Retention`, `Writer` | the writer over the segmented store as a state machine, and as objects over real bytes |
| `Engine` | many callers and one writer, every interleaving, as a trace of events |
| `Keyring`, `KeyringRuns` | the keyring as an object, and every interleaving of its critical sections |

## How to read the statements

- **Hash.** BLAKE3 is a parameter, any function to 32 bytes. Since such a function has collisions, a
  statement that holds "unless there is a collision" would say nothing. Here collisions are pinned
  down: either an extractor computes two different byte strings with one hash and proves that they
  are among the strings hashed by the two computations at hand, or the lemma assumes that the hash
  keeps exactly those finitely many strings apart (`InjectiveOn`).
- **serde_json** is a parameter too (`Lib`). `InjectivePayload` says that different payloads print
  differently; `LineCodec` says that an entry prints as one line, an object, and reads back as itself.
- **Strings** are their UTF-8 bytes, at most 2^56 of them, which is more than any machine holds; the
  bound is what lets a payload's text still have its length written in eight bytes. A library that
  meets both assumptions exists (`LibraryExists`), so nothing proved from them is empty.
- **Spelled out.** Methods are proved against specification functions. So that no wrong function can
  hide behind a method that is wrong in the same way, what it computes is also said without it: byte by
  byte, field by field or by positions, in the method's own contract or in a lemma named `...Spelled`.
- **Overflow.** `seq + 1` wraps (`Succ`), as it does in a release build; a debug build panics at the
  same place. Statements about numbering assume that the counter has room, which a caller can check.
- **Signatures.** Ed25519 over base64 is a parameter (`Scheme`). Nothing is assumed of all signatures;
  `Unforged` says of the one signature at hand that what it is good for was signed by the key's holder.
- **Failures.** A failed append leaves the bytes of the files as they were; if it had rotated first,
  the empty new segment stays. A failed removal stops a sweep where it is. In the keyring the random
  generator, the write and the removal may each fail.
- **Failed removal of a key.** `shred` forgets the key in the cache before it removes the file. If the
  removal fails, the file outlives it, and the next `ensure` mints over a key that was never shredded,
  although it is documented to create a key only if there is none. The code is followed here.
  `EnsureOverwritesExactly` and `KeysAreOverwrittenExactly` say exactly when this happens, and
  `FailedRemovalLosesKey` is a run that gets there.
- **Two names, one number.** Names such as `seg-7.jsonl` and `seg-07.jsonl` stand for one segment number. A
  listing then has them in the order of the directory, and the contracts name the listing that was met.
- **Guard of pruning.** `prune_before` with a boundary at or beyond the name of an empty last segment
  deletes every entry, returns no anchor, and the next opening restarts at number one. Its comment
  reserves the missing anchor for logs that lost nothing or still begin at genesis; the code is
  followed here. `UnguardedSweepExample` is a run that gets there, and the guard `KeepsAnEntry`,
  which a caller can check beforehand, is proved to be exact.
- **Merkle proofs** carry an index and a count that the verifier never reads. Nothing is claimed of
  them; the side bits of an accepted path do tell the index (`DirectionsTellIndex`).
- **Truncation** is not a violation: `OnlyPrefixesVerify` has prefixes, and only prefixes, verify.

## Model

| member | source | states |
|---|---|---|
| Bytes.HexRoundTrip | crates/core/src/merkle.rs:72-79 | reading the printed form of a digest gives the digest back |
| Bytes.ToHexSpelled | crates/core/src/merkle.rs:72-74 | digests print as lower-case digits, the high half of each byte first |
| Bytes.FromHexSpelled | crates/core/src/merkle.rs:76-79 | exactly the texts of 64 digits in either case are read |
| Bytes.U64BytesSpelled | crates/core/src/util.rs:17 | eight bytes that add up to the number, the most significant first |
| Bytes.I64BytesSpelled | crates/core/src/hash.rs:18 | two's complement: a negative number is spelled by the word 2^64 above it |
| Entries.GenesisSpelled | crates/core/src/entry.rs:142-143 | the genesis text is 64 zero digits |
| Encoding.PushField | crates/core/src/util.rs:16-19 | extends the caller's buffer by one length-prefixed field and touches nothing else |
| Encoding.FieldSpelled | crates/core/src/util.rs:16-19 | eight bytes that spell the length, then the bytes themselves |
| Encoding.ParseOfEncode | crates/core/src/util.rs:14-19 | a concatenation of fields parses back to exactly those fields |
| Encoding.EncodeOfParse | crates/core/src/util.rs:14-19 | a buffer that parses is the encoding of what it parses to, so it has no second spelling |
| Encoding.EncodingIsUnambiguous | crates/core/src/hash.rs:3-5 | two field lists share their bytes only if they are equal: no boundary can be shifted |
| Hashing.BuildCanonicalBytes | crates/core/src/hash.rs:15-31 | the buffer parses to eight fields: number, time, event type, outcome as text, actor, instruction id or nothing, payload text, previous hash, each spelled out |
| Hashing.ComputeEntryHash | crates/core/src/hash.rs:34-37 | the hexadecimal hash of the bytes that `BuildCanonicalBytes` pins down |
| Hashing.CanonicalBytesDetermineContent | crates/core/src/hash.rs:15-31 | equal canonical bytes exactly for equal entries, up to a missing or empty instruction id and the stored hash |
| Hashing.EqualHashesBind | crates/core/src/hash.rs:34-37 | entries with one hash agree in content, or their two canonical forms collide |
| Messages.BuildCheckpointMessage | crates/core/src/checkpoint.rs:35-42 | the signed bytes parse to tag, number, head hash and time, each spelled out |
| Messages.BuildAnchorMessage | crates/core/src/merkle.rs:152-161 | the signed bytes parse to tag, range, count, root and time, each spelled out |
| Messages.MessagesNeverCoincide | crates/core/src/checkpoint.rs:35-42 | entry, checkpoint and anchor bytes are each injective and never equal across kinds |
| Assumptions.LibraryExists | crates/core/src/hash.rs:5-8 | the assumptions about the serializer can be met together |
| Verify.CheckEntry | crates/core/src/verify.rs:78-165 | one turn of the loop adds, in this order: an altered-content violation, a link or genesis violation, a number violation, each exactly when it is due after the predecessor, or the anchor or genesis for the first entry |
| Verify.VerifyEntriesFrom | crates/core/src/verify.rs:69-172 | count, head, and for each kind and number: it is reported exactly if some entry with that number is altered, unlinked, no genesis or out of turn; clean exactly when the list is a chain from its start |
| Verify.VerifyEntries | crates/core/src/verify.rs:57-62 | the same from genesis |
| Verify.ReportIsExact | crates/core/src/verify.rs:69-172 | no violation if and only if every hash matches, the first entry follows the start, and every link and number is contiguous |
| Verify.ReportComposes | crates/core/src/verify.rs:69-172 | the report on a concatenation is the reports on its parts, the second anchored at the last entry of the first: violations, count and head |
| Verify.ValidConcat | crates/core/src/verify.rs:64-68 | a concatenation is a chain exactly when both parts are, the second from the end of the first |
| Verify.SeqTellsPosition | crates/core/src/verify.rs:151-159 | in a chain that does not wrap, the number of an entry is its place |
| Verify.OnlyPrefixesVerify | crates/core/src/verify.rs:27-39 | a list made of entries of a valid chain verifies from genesis if and only if it is a prefix of it |
| History.ExtractFork | crates/core/src/verify.rs:69-172 | from two valid chains with one head: they are the same history, or two of their canonical forms collide, and which |
| History.HeadPinsHistory | crates/core/src/verify.rs:69-172 | while the hash keeps the forms at hand apart, equal heads if and only if equal histories, lengths included |
| History.CheckpointPinsHistory | crates/core/src/checkpoint.rs:3-8 | two checkpoints sign the same bytes if and only if their histories and times are the same |
| Signing.SignCheckpoint | crates/core/src/checkpoint.rs:81-91 | the statement asked for, with the signer's key and a signature over it, which an honest scheme accepts |
| Signing.VerifySignature | crates/core/src/checkpoint.rs:102-116 | the error of the key, or else the verdict of the scheme |
| Signing.VerifyCheckpoint | crates/core/src/checkpoint.rs:123-129 | the verdict on the checkpoint's whole statement under its embedded key |
| Signing.VerifyCheckpointWith | crates/core/src/checkpoint.rs:132-155 | the same, and an error for any readable key but the pinned one |
| Signing.AcceptedWasIssued | crates/core/src/checkpoint.rs:10-11 | an unforged signature is good only for a statement of that kind that was issued, whatever else the key signed |
| Signing.CheckpointProtectsHistory | crates/core/src/checkpoint.rs:3-9 | under a checkpoint accepted for the pinned key, a log that verifies ends where the checkpoint says if and only if it is the issuer's log, entry by entry |
| Signing.SchemeExists | crates/core/src/checkpoint.rs:81-116 | what is assumed of signers and of signatures can be met together |
| Merkle.SplitPoint | crates/core/src/merkle.rs:36-43 | terminates without losing a bit for up to 2^63 leaves, with a power of two k, k < n <= 2k |
| Merkle.SplitIsUnique | crates/core/src/merkle.rs:36-43 | no other power of two lies there |
| Merkle.ComputeMth | crates/core/src/merkle.rs:22-55 | the root byte by byte: of nothing, of a zero byte and the leaf, or of a one byte, the root of the first k leaves and the root of the rest, for the power of two k below and at least half the count |
| Merkle.BuildPath | crates/core/src/merkle.rs:57-70 | pushes exactly the audit path onto the caller's vector, after what was there |
| Merkle.BuildProof | crates/core/src/merkle.rs:106-124 | a proof exists exactly for indices in range, its text reads back as the leaf's path, and the verifier accepts it |
| Merkle.VerifyMerkleProof | crates/core/src/merkle.rs:127-138 | an error exactly when some step is not 64 hexadecimal digits; otherwise whether the nodes climbed from the leaf, each hashed byte by byte with its sibling on the stated side, end in the root |
| Merkle.ReadFailsExactly | crates/core/src/merkle.rs:129-130 | decoding a path fails if and only if some step is not 64 hexadecimal digits, always with the same error |
| Merkle.PathLeadsToRoot | crates/core/src/merkle.rs:57-70 | completeness: for every list and index the path folds to the root |
| Merkle.ExtractMember | crates/core/src/merkle.rs:127-138 | soundness: an accepted leaf with any steps is in the list and the steps are its own path, or two of the strings just hashed collide; always the latter for no leaves |
| Merkle.OnlyHonestProofsPass | crates/core/src/merkle.rs:126-138 | while the hash keeps the strings at hand apart, a proof is accepted if and only if it is the leaf's own |
| Merkle.ExtractDifference | crates/core/src/merkle.rs:45-55 | lists with one root are equal, lengths not assumed, or two of the strings hashed for them collide |
| Merkle.PathIsShort | crates/core/src/merkle.rs:57-70 | a path over at most 2^e leaves has at most e steps |
| Merkle.FirstPathIsLongest | crates/core/src/merkle.rs:57-70 | the first leaf's path has exactly the rounded-up logarithm of steps |
| Merkle.DirectionsTellIndex | crates/core/src/merkle.rs:57-70 | different leaves have different side bits |
| MerkleAnchors.BuildMerkleAnchor | crates/core/src/merkle.rs:164-184 | root over the entry hashes, first and last number, count, the signer's key, and its signature over all of them, which an honest scheme accepts |
| MerkleAnchors.VerifyMerkleAnchor | crates/core/src/merkle.rs:187-196 | the verdict of the scheme on the anchor's own signature over its range, count, root and time |
| MerkleAnchors.AnchoredLeafIsEntry | crates/core/src/merkle.rs:127-196 | under an accepted anchor the proofs that pass are exactly those of the entries of the log that its signer anchored |
| MerkleAnchors.MerkleProofForSeq | crates/core/src/merkle.rs:199-203 | a proof for the first entry with the number, accepted against the root, and none exactly if there is no such entry |
| MerkleAnchors.RangeOfVerifiedLog | crates/core/src/merkle.rs:163-184 | on a verified log the count is the length of the range, and a number in range sits at its offset |
| MerkleAnchors.AnchorThenProve | crates/core/src/merkle.rs:163-203 | on any verified log: a number has a proof exactly if it is in range, at its offset, accepted against the anchor's root |
| MerkleAnchors.RootPinsEntries | crates/core/src/merkle.rs:163-184 | one root over matching entry hashes pins the number of entries and the content of each |
| Store.ReadAll | crates/core/src/store.rs:103-115 | by positions in the file: an error exactly if some line with text is not an entry, and otherwise the entries of all lines with text, top to bottom |
| Store.BlankLinesChangeNothing | crates/core/src/store.rs:109-111 | white space between the lines of a file makes no difference to what is read |
| Store.ReadConcat | crates/core/src/store.rs:103-115 | over files whose last line is ended, reading goes part by part |
| Store.ReadOfRender | crates/core/src/store.rs:59-67 | reading undoes writing, for every list of entries |
| Store.FileStore.Open | crates/core/src/store.rs:35-51 | fails exactly if some line with text is not an entry; the tail is the last entry that reading finds |
| Store.FileStore.Append | crates/core/src/store.rs:59-67 | one line more at the end of the file, whatever it held, or, failing, no change; a file whose last line is ended then reads as before plus the entry |
| Store.MemoryStore.Append | crates/core/src/store.rs:92-95 | the entry is added at the end |
| Store.MemoryStore.Tail | crates/core/src/store.rs:88-90 | the last entry's number and hash |
| SegmentNames.NameRoundTrip | crates/core/src/segment.rs:26-35 | parsing a generated name returns its number, for every `u64` |
| SegmentNames.NameSpelled | crates/core/src/segment.rs:26-28 | prefix, twenty digits and suffix: the last digit is the number's last, and the others are those of a tenth of it |
| SegmentNames.ParseSpelled | crates/core/src/segment.rs:30-35 | a name stands for a number exactly if digits that write it, or a plus sign and such digits, are between prefix and suffix |
| SegmentNames.NameOrderIsChainOrder | crates/core/src/segment.rs:5 | names compare as text the way their numbers compare |
| Segments.ListSegments | crates/core/src/segment.rs:38-53 | whatever the directory yields, each segment file once, and no other file, in order of the numbers |
| Segments.ListingIsUnique | crates/core/src/segment.rs:38-53 | where no two names share a number there is only one such list |
| Segments.ReadAllSegmented | crates/core/src/segment.rs:139-145 | the segments' entries one after the other in listed order; an error exactly if some listed file has a line with text that is not an entry |
| Segments.ReadListedIsFlat | crates/core/src/segment.rs:139-145 | on the store's own directory that is the flat list |
| Segments.SegmentedStore.Open | crates/core/src/segment.rs:68-107 | refuses a zero limit and a malformed last segment; otherwise, on any directory, counters come from the last file and the tail from the last readable one with an entry, and at most one empty file is created; on the store's own directory this is the state of the segments |
| Segments.SegmentedStore.RotateTo | crates/core/src/segment.rs:109-115 | the file of that number is open, created if it was missing, and never truncated, or nothing changes; above the last number that is one new empty segment |
| Segments.SegmentedStore.Append | crates/core/src/segment.rs:123-136 | the bytes, counters, tail, open file and answer after an append, for each way it can fail; on the store's own directory also the segments, unless a rotation goes backwards |
| Segments.ScanTail | crates/core/src/segment.rs:83-90 | the last entry of the last readable segment that has one |
| Segments.TailSpelled | crates/core/src/segment.rs:83-90 | that is: of the last listed file that can be read and has entries, the last one |
| Segments.NoTailSpelled | crates/core/src/segment.rs:83-90 | and nothing if there is no such file |
| Pruning.PruneBefore | crates/core/src/segment.rs:154-192 | on any directory, wherever the sweep stops, exactly the leading listed files are gone and no other file has changed; when it finishes, the anchor comes from the first file left |
| Pruning.DropCountExact | crates/core/src/segment.rs:163-175 | a listed file goes exactly if the next one starts at or before the boundary |
| Pruning.AnchorSpelled | crates/core/src/segment.rs:181-191 | one less than the first entry's number with its previous hash, if the file reads and that number is above one |
| Pruning.PruneBeforeTimestamp | crates/core/src/segment.rs:196-207 | a sweep at the number of the first entry not older than the cutoff, and nothing if there is none |
| Pruning.BoundaryIsOfEntry | crates/core/src/segment.rs:196-207 | the boundary is the number of the first entry at or after the cutoff, and missing exactly if all are older |
| Pruning.PruningKeepsLayout | crates/core/src/segment.rs:154-175 | after any number of removals the survivors verify from the last removed entry |
| Pruning.PruningIsExact | crates/core/src/segment.rs:147-154 | exactly the segments before the last that lie wholly below the boundary go |
| Pruning.AnchorIsLastRemoved | crates/core/src/segment.rs:181-191 | the returned anchor is the last removed entry's number and hash |
| Pruning.GuardIsExact | crates/core/src/segment.rs:150-153 | a finished sweep leaves an entry if and only if the last segment has one or the boundary stops short of it |
| Pruning.PruningTwice | crates/core/src/segment.rs:154-175 | pruning at two boundaries leaves what pruning at the larger leaves |
| Pruning.TimePruningIsSafe | crates/core/src/segment.rs:196-207 | with timestamps in any order, no entry at or after the cutoff is deleted, and the guard holds by itself |
| Retention.MakeEntry | crates/core/src/log.rs:48-64 | the sealed entry carries the record, the next number, the previous hash and a matching hash of its own |
| Retention.ProcessSeals | crates/core/src/log.rs:41-77 | when an append succeeds, and that its entry is the record asked for with its private part encrypted, next in number and chained; a failed encryption changes nothing |
| Retention.AppendKeepsInv | crates/core/src/log.rs:41-77 | an append that succeeds, fails, or rotates and then fails keeps the invariant |
| Retention.ReopenIsIdentity | crates/core/src/segment.rs:68-107 | reopening recovers the very state the live store and writer had |
| Retention.PruneByTimeKeepsInv | crates/core/src/segment.rs:196-207 | retention by time keeps the invariant without a guard |
| Retention.EveryRunIsSafe | crates/core/src/segment.rs:68-192 | after every interleaving of appends, failures, reopenings and guarded prunings: the files hold a verifiable suffix of everything acknowledged, names tell numbers, and the writer stands at the head |
| Retention.SweepIsSafeIffGuarded | crates/core/src/segment.rs:150-153 | a finished sweep keeps the invariant if and only if the guard holds |
| Retention.UnguardedSweepForgets | crates/core/src/segment.rs:154-192 | past the guard nothing is left, the file that is left yields no anchor, and reopening starts again from number one |
| Retention.UnguardedSweepExample | crates/core/src/segment.rs:154-192 | a run of four operations that gets there |
| Retention.SegmentedRefinesFlat | crates/core/src/segment.rs:123-145 | any appended list is what the segments read as; all but the last hold exactly the limit, and their number is the quotient rounded up, at least one |
| Writer.WriterState.constructor | crates/core/src/log.rs:193-204 | resumes at the tail, or at zero and genesis |
| Writer.WriterState.Process | crates/core/src/log.rs:41-77 | over real bytes, at any counter: when it succeeds, that the new entry holds the record and the encrypted private part, that one file has its line more, what the receipt says, and that a failed encryption changes nothing; while the counter has room one step of the state machine, and the invariant is kept |
| Writer.WriterLoop | crates/core/src/log.rs:80-92 | the replies to a whole queue, in order, are those of serving one command after another, each in the state that the one before left |
| Writer.Reopen | crates/core/src/log.rs:185-204 | a new store and writer over the same directory are in the state the old ones were in |
| Writer.Prune | crates/core/src/segment.rs:154-192 | under a live writer: within the guard the invariant is kept and the anchor of a finished sweep is the last entry of the history that is gone; past it a finished sweep leaves no entry and returns no anchor |
| Writer.PruneByTime | crates/core/src/segment.rs:196-207 | the same for retention by time, without a guard |
| Writer.Execute | crates/core/src/segment.rs:68-192 | any guarded run carried out on a directory of bytes is the run of the state machine |
| Engine.RunIsTraced | crates/core/src/log.rs:80-155 | every interleaving leaves a good trace: calls served in order, true replies, each returned once to its own caller |
| Engine.ServeHasEffect | crates/core/src/log.rs:41-77 | a successful answer is the receipt of the one entry stored, which holds the record asked for; any other answer stored nothing |
| Engine.StoredIsWhatWasAsked | crates/core/src/log.rs:41-139 | in every run each stored write is the entry at its receipt's place, and carries the record submitted under its number |
| Engine.ReceiptsAreTheLog | crates/core/src/log.rs:3-8 | receipts and new entries are one list, numbered without a gap, failures taking no number, and the whole verifies |
| Engine.EarlierReturnsBeforeLaterCalls | crates/core/src/log.rs:122-139 | a record answered before another is submitted has the smaller number |
| Engine.PrefixOfEvents | crates/core/src/log.rs:80-155 | every prefix of what happened in a run is what happened in a prefix of the run |
| Engine.HeadWasTrueMeanwhile | crates/core/src/log.rs:141-155 | for every head reply of a run, the run passed, after the call and before the return, through a state whose writer stood exactly at that number and hash |
| Engine.EmptyQueueMeansAllServed | crates/core/src/log.rs:80-92 | the queue is empty exactly when every call has been served |
| Keyring.ValidKeyIdSpelled | crates/core/src/keyring.rs:34-40 | one to 128 letters, digits, hyphens, underscores and dots, and so never a slash |
| Keyring.KeyNameSpelled | crates/core/src/keyring.rs:77-80 | the subject between `key-` and `.b64` |
| Keyring.KeyFilesAreSubjects | crates/core/src/keyring.rs:77-80 | a key file belongs to exactly one subject, and different subjects never share one |
| Keyring.KeyringProvider.Open | crates/core/src/keyring.rs:53-75 | the cache holds exactly the keys whose files decode |
| Keyring.KeyringProvider.Ensure | crates/core/src/keyring.rs:94-115 | from any cache and directory, the outcome `EnsureOutcome` specifies; agreement of the two is kept |
| Keyring.EnsureOverwritesExactly | crates/core/src/keyring.rs:94-115 | no key file is ever removed, and a good one is overwritten if and only if it is the subject's, the subject is valid and not cached, and generator and write succeed; never while cache and directory agree |
| Keyring.KeyringProvider.Get | crates/core/src/keyring.rs:117-124 | the cached key or an error |
| Keyring.KeyringProvider.Shred | crates/core/src/keyring.rs:126-141 | from any cache and directory, the outcome `ShredOutcome` specifies: all answers, the key gone from the cache, and from the directory unless removing failed |
| Keyring.ShredKeepsAgreementExactly | crates/core/src/keyring.rs:126-141 | cache and directory still agree afterwards unless the removal of a cached key's file failed |
| Keyring.CachedKeysStayOnFile | crates/core/src/keyring.rs:94-141 | through every failure, each cached key is the one in its file |
| Keyring.FailedShredThenEnsure | crates/core/src/keyring.rs:94-141 | a failed removal and then `ensure` replace a key that was never shredded, and its bundles no longer open |
| Keyring.ShredCanBeRetried | crates/core/src/keyring.rs:126-141 | repeating a failed removal gives what the first attempt would have given |
| Keyring.KeyringProvider.WrapDek | crates/core/src/keyring.rs:153-159 | from any cache and directory: wraps under the subject's key, minting one only if allowed, and changes no other subject |
| Keyring.KeyringProvider.UnwrapDek | crates/core/src/keyring.rs:161-164 | opens exactly what the subject's present key wrapped |
| Keyring.ShredAcrossReopen | crates/core/src/keyring.rs:53-75 | after a successful shred a fresh process has every key but that one; after a failed one it has them all |
| KeyringRuns.ShreddingIsExact | crates/core/src/keyring.rs:94-165 | in every interleaving, failures included, a bundle opens, whenever tried, if and only if its key is still live; never once its subject was shredded, and always until then if no removal failed |
| KeyringRuns.CreatedExactlyOnce | crates/core/src/keyring.rs:94-115 | each key generation is reported as created once, unless a restart cut its thread off |
| KeyringRuns.KeysAreOverwrittenExactly | crates/core/src/keyring.rs:94-141 | in every run no cached key is replaced, and a key on disk exactly when `ensure` works on a subject whose file outlived a failed removal |
| KeyringRuns.FailedRemovalLosesKey | crates/core/src/keyring.rs:94-141 | a run in which a key is lost although nothing was shredded |
| KeyringRuns.CacheAgreesWithDirectory | crates/core/src/keyring.rs:53-141 | outside the critical sections the cache is the directory without the files that outlived a failed removal; at all times each cached key is on disk |
| KeyringRuns.EnsureAloneIsEnsure | crates/core/src/keyring.rs:94-115 | the steps of an undisturbed `ensure` together have the outcome that the object's method has, on any directory that reads alike |
| KeyringRuns.ShredAloneIsShred | crates/core/src/keyring.rs:126-141 | the same of `shred`, where the subject's own file decodes |
| KeyringRuns.WrapAloneIsWrap | crates/core/src/keyring.rs:153-164 | the same of fetching a key and of unwrapping |
| KeyringRuns.RestartIsOpen | crates/core/src/keyring.rs:53-75 | a restart leaves what opening the directory anew loads |

## Left out

- BLAKE3, Ed25519, XChaCha20-Poly1305, base64 and the random generator: unseen libraries. Signatures and keys of the scheme are texts that a parameter judges; encryption is ideal.
- JSON syntax, floats and map ordering: the parameters of `Lib` stand for the serializer.
- Partial writes, a failed `fsync` after a complete write, and durability of directory entries.
- Several processes on one directory, and file systems without case.
- Reading errors other than malformed lines, invalid UTF-8, and white space outside ASCII in otherwise blank lines.
- The texts of errors and of violation details.
- The HTTP server, the client, the command line, tokens, configuration and logging.
- The builder's setters, dropping the log while calls are pending, poisoned locks and panics.
- ShreddingIsExact: counts from the moment the key is fetched, because `wrap_dek` uses the fetched key after releasing the lock.
