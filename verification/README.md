# Oak in Dafny

A model of the parts of Project Oak whose correctness is hardest to see by reading them,
and proofs about that model:

- **The Oak Functions lookup table** (`LenCode`, `Arena`, `Probe`, `LookupEntries`,
  `LookupTable`, `LookupIter`, `LookupRuns`): an open-addressing table of packed six-byte
  entries over an append-only arena of chunks. Whatever the hash function, any run of
  calls answers as a plain map does; every search ends; every record stays readable; the
  panics happen exactly where stated. The table is a class; its data chunks are real
  arrays, its entries a sequence, and the ghost fields `arena`, `records` and `contents`
  are tied to them by `StorageOk` and `Valid`.
- **Loading and publishing lookup data** (`Chunking`, `LookupManager`, `ManagerRuns`,
  `Loader`): from the source map, through chunks and the builder, to a view whose lookups
  answer as the source map does, and go on doing so whatever is loaded afterwards.
  `LookupConcurrency` is the same manager under any interleaving of threads, with both
  locks and every insertion as separate steps and tables referred to by identity;
  `ConcurrentCalls` says what each call has done when it returns.
- **The Oak channel** (`Frames`, `BasicFramed`, `Oversized`): messages, frames and
  reassembly over a byte stream, and the lock-step transfer as two processes over two byte
  queues of any capacity, byte by byte, also of payloads too long for the length header.
- **DICE evidence** (`Cose`, `Dice`, `DiceVerifier`, `DiceExtraction`, `DiceSoundness`): the
  builder that extends a chain of certificates and the verifier that folds over it, with symbolic
  signatures and an invertible serialization. What an honest boot makes is accepted with
  what it measured; and if its keys have signed nothing else, nothing can be put in its
  place.
- **The cell initialized once** (`OnceCell`), as an interleaving of atomic steps.
- **Texts that signatures depend on** (`Base64`, `Pem`, `Digests`, `Utf8`, `Rekor`,
  `RekorEscapes`).

`dafny verify dfyconfig.toml` checks everything.

## What the model takes as given

- The hash function of the lookup table is any function of key and secret. The random
  number drawn for the secret is a parameter; zero panics, as in the source.
- Panics are the outcome `Panic` (or `Panicked`); nothing is promised about an object after
  a panic.
- A shift by `chunk_bits` and a mask by `chunk_mask` are written as quotient and remainder
  by `chunkSize`, which `StorageOk` keeps equal to two to the power `chunkBits`.
- The documented limits of the table are preconditions of an insertion that is not refused
  with a panic (`HasRoom`): key and value below 1 GiB, and the record's data index below 1 TiB.
  `LenCode.FaithfulExactlyBelowLimit` and `LookupEntries.IndexSurvives` show that both are
  needed. A reservation whose size computation overflows 64 bits panics, as in a build
  with overflow checks; `LookupTable.SpareEntryExactly` says what happens in one without.
- In `Cose` a byte string is the term it was serialized from, so CBOR and COSE codecs are
  invertible, and a signature is the term of the key and contents it was made with (the
  signed structure is the one of section 4.4 of RFC 9052). SHA-256 is any function.
- Concurrent steps are sequentially consistent. Locks have no fairness.
- The protocol document beside the channel describes an older frame format with a 16-byte header, a
  checksum and a check of the total length. The model follows the code: an 8-byte header, START and
  END flags, and no comparison of the length header with what was reassembled.
- The comment on `new_data` and its assertion admit a first record of `chunk_size - 1`
  bytes; the code then indexes a chunk that does not exist. `Arena.PanicsExactly` gives the
  exact condition and `LookupTable.FirstRecordPanics` the failing record.
- The comment on `convert_pem_to_raw` says that it panics if the text does not look like PEM.
  It also panics if header and footer overlap, which `looks_like_pem` admits;
  `Pem.PanicsExactly` gives the exact condition and `Pem.OverlapPanics` such a text.
- The comment in `rekor.rs` says that the canonical text should follow RFC 8785. It does not
  escape; `Rekor.CanonicalExactly` says when that makes a difference and
  `Rekor.BackslashNotEscaped` gives an entry for which it does. The comment adds that a wrong
  text can only cause a rejection. `RekorEscapes.MistakenExactly` says for which entries that
  fails: the text is then the canonical one of another entry.
- The verifier does not look at key usage, and a certificate of the application's signing key
  has the form of a layer's. `DiceSoundness.ContinuedClaimsNothing` says what evidence that
  goes on from there can amount to: no measurement. A certificate for a group key is signed
  like the application's own, so a returned signing key may be the group's.
- The comment in `chunk_up_lookup_data` promises chunks within the limit. The counter is
  reset without the entry that starts the chunk, so the limit can be exceeded;
  `Chunking.LimitKeptExactly` says for which sources and limits.

## Model

| member | source | states |
|---|---|---|
| LenCode.WriteLen | oak_functions_service/src/lookup_htbl.rs:429-443 | the loop writes exactly the code of the length, returns its size, and changes no byte outside it |
| LenCode.ReadsBack | oak_functions_service/src/lookup_htbl.rs:413-443 | for every length below 2^30, every buffer and offset, reading after writing gives the same length and size, and the size is at most 4 |
| LenCode.LenLayout | oak_functions_service/src/lookup_htbl.rs:408-443 | two bits count the further bytes, by the stated ranges, six hold the highest bits of the length, and the rest follows least significant byte first |
| LenCode.FaithfulExactlyBelowLimit | oak_functions_service/src/lookup_htbl.rs:408-443 | the code reads back as the length written if and only if the length is below 2^30 |
| Arena.ReadsRecord | oak_functions_service/src/lookup_htbl.rs:193-229 | the key and value readers return the stored key and value byte for byte, and stay inside the chunk |
| Arena.PlacedInOneChunk | oak_functions_service/src/lookup_htbl.rs:286-309 | a record that fits is placed inside one chunk, the last or the next, at a nonzero index that addresses it, with the free index again in the last chunk |
| Arena.PanicsExactly | oak_functions_service/src/lookup_htbl.rs:289-308 | writing panics if and only if the record is as large as a chunk, or is the very first and one byte smaller |
| LookupTable.FirstRecordPanics | oak_functions_service/src/lookup_htbl.rs:286-309 | a concrete record that passes the assertion and still panics on a table just reserved |
| Arena.WritingKeepsArena | oak_functions_service/src/lookup_htbl.rs:308-317 | a new record overlaps none before it, leaves all of them readable, and becomes readable itself |
| Arena.RefusedExactly | oak_functions_service/src/lookup_htbl.rs:286-325 | whether a series of insertions panics can be read off the record lengths alone |
| Arena.RoomEnough | oak_functions_service/src/lookup_htbl.rs:286-318 | data that is at most half the address range always has room, however chunk boundaries fall (sufficient, not necessary) |
| Probe.Reduce | oak_functions_service/src/lookup_htbl.rs:385-392 | the home slot is inside the table and is the share of the hash range that the hash falls in, all shares being of equal size |
| Probe.HashByte | oak_functions_service/src/lookup_htbl.rs:154-160 | the entry byte is the lowest of the upper half of the hash |
| Probe.EmptyAhead | oak_functions_service/src/lookup_htbl.rs:166-188 | a table that is not full has an empty slot ahead of every home slot, which bounds every search |
| Probe.MissIsFinal | oak_functions_service/src/lookup_htbl.rs:166-188 | a search that meets an empty slot may stop: the key is nowhere in the table |
| Probe.PlaceKeepsProbing | oak_functions_service/src/lookup_htbl.rs:248-254 | filling the slot a search ended at keeps every key reachable from its home slot and all keys distinct |
| LookupEntries.IndexSurvives | oak_functions_service/src/lookup_htbl.rs:394-406 | a data index survives the five-byte store if and only if it is below 2^40 |
| LookupEntries.SkippedEntry | oak_functions_service/src/lookup_htbl.rs:161-176 | skipping entries by their hash byte never skips the key looked for, nor an empty entry |
| LookupEntries.KeyInserted | oak_functions_service/src/lookup_htbl.rs:248-254 | writing hash byte and index to the empty entry adds one key with its value, for every other key nothing changes |
| LookupEntries.KeyUpdated | oak_functions_service/src/lookup_htbl.rs:243-247 | redirecting a key's entry changes that key's value and nothing else |
| LookupTable.LookupHtbl.Reserve | oak_functions_service/src/lookup_htbl.rs:118-145 | reserves the 60 percent load table and power-of-two chunks with the drawn secret on an empty table, does nothing on any other, keeps the map, panics exactly on an overflow or a zero draw |
| LookupTable.Allocated | oak_functions_service/src/lookup_htbl.rs:122-124 | the table is allocated for a load of 60 percent, rounded down, and has an empty entry to spare |
| LookupTable.SpareEntryExactly | oak_functions_service/src/lookup_htbl.rs:122-125 | if the size computation wraps around and the result can be allocated, there is an empty entry to spare exactly when nothing overflowed |
| LookupTable.LookupHtbl.ReadKey | oak_functions_service/src/lookup_htbl.rs:193-199 | returns the key of the record at a data index |
| LookupTable.LookupHtbl.ReadValue | oak_functions_service/src/lookup_htbl.rs:221-229 | returns the value of the record at a data index |
| LookupTable.LookupHtbl.Lookup | oak_functions_service/src/lookup_htbl.rs:150-189 | terminates; finds the key's entry if the key is there, otherwise the empty entry at the end of its probe path |
| LookupTable.LookupHtbl.NewData | oak_functions_service/src/lookup_htbl.rs:286-318 | appends one record and changes none; returns a nonzero index; panics exactly when the record cannot be placed |
| LookupTable.LookupHtbl.RecordsIntact | oak_functions_service/src/lookup_htbl.rs:286-318 | every record ever written is inside one chunk, still there byte for byte, and shares no byte with another |
| LookupTable.LookupHtbl.PlaceAgain | oak_functions_service/src/lookup_htbl.rs:270-280 | places one record in the new table; the panic branch for a key already there is dead |
| LookupTable.LookupHtbl.Rehash | oak_functions_service/src/lookup_htbl.rs:265-282 | doubles length and capacity, keeps map, arena and count, and re-establishes the probing invariant |
| LookupTable.LookupHtbl.GrowTable | oak_functions_service/src/lookup_htbl.rs:260-282 | growing changes nothing but the table and its capacity, and leaves room for another entry; a table not yet sized is reserved for one |
| LookupTable.LookupHtbl.Enter | oak_functions_service/src/lookup_htbl.rs:242-255 | points the table at the new record and returns exactly the previous value of the key, or none |
| LookupTable.LookupHtbl.Insert | oak_functions_service/src/lookup_htbl.rs:234-256 | the map gains exactly the pair, the previous value is returned, older records are kept, the table is doubled exactly when it is as full as it was made for, and a panic happens exactly when stated |
| LookupTable.LookupHtbl.Extend | oak_functions_service/src/lookup_htbl.rs:321-325 | inserts the pairs in order; panics exactly when one of them does, whatever comes behind it |
| LookupTable.LastWins | oak_functions_service/src/lookup_htbl.rs:320-325 | after any insertions a key has the value inserted last, and a key never inserted keeps what it had |
| LookupTable.LookupHtbl.Get | oak_functions_service/src/lookup_htbl.rs:210-218 | returns the value of the abstract map, or none |
| LookupTable.LookupHtbl.ContainsKey | oak_functions_service/src/lookup_htbl.rs:202-207 | true if and only if the abstract map has the key |
| LookupTable.LookupHtbl.Len | oak_functions_service/src/lookup_htbl.rs:328-330 | the number of keys of the abstract map |
| LookupRuns.RunCalls | oak_functions_service/src/lookup_htbl.rs:113-335 | any sequence of reserve, insert, extend, get, contains and len, within the documented limits, answers as a plain map, and panics if and only if some call meets the exact condition in the state the calls before it lead to |
| LookupRuns.PanicsOnlyWhereItMay | oak_functions_service/src/lookup_htbl.rs:118-335 | whatever the history, a run panics only on an overflow, a zero secret or a record as large as the smallest chunk |
| LookupIter.LookupHtblIter.Next | oak_functions_service/src/lookup_htbl.rs:351-372 | yields the first remaining pair and leaves the others, or ends when none remains |
| LookupIter.Iterate | oak_functions_service/src/lookup_htbl.rs:337-383 | iteration yields each pair of the map exactly once, as many as the map has, and stops |
| LookupManager.DataBuilder.Build | oak_functions_service/src/lookup.rs:49-52 | hands over the table built so far and continues with a new empty one |
| LookupManager.LookupDataManager.Reserve | oak_functions_service/src/lookup.rs:141-145 | sizes the builder's table; every table ever published is kept as it was |
| LookupManager.LookupDataManager.ExtendNextLookupData | oak_functions_service/src/lookup.rs:155-165 | extends the builder's map only; every table ever published is kept as it was, and shares no object with what is changed |
| LookupManager.LookupDataManager.FinishNextLookupData | oak_functions_service/src/lookup.rs:169-185 | publishes exactly what was built and continues with new objects only; the new table joins those that are kept, the old ones stay in them |
| LookupManager.LookupDataManager.AbortNextLookupData | oak_functions_service/src/lookup.rs:187-195 | throws the builder's data away and publishes nothing |
| LookupManager.LookupDataManager.CreateLookupData | oak_functions_service/src/lookup.rs:199-208 | a view holds the table published at that time, one of those that are kept |
| LookupManager.LookupData.Get | oak_functions_service/src/lookup.rs:224-226 | a view answers from its own table |
| ManagerRuns.RunManager | oak_functions_service/src/lookup.rs:96-208 | after any sequence of reserve, extend, finish, abort and create on the objects themselves, every view still shows what was published when it was created, every table published before is as it was, and the panics are exactly those of the builder |
| Chunking.ChunkUpLookupData | oak_functions_launcher/src/lookup.rs:93-123 | the loop computes the greedy chunking with the code's own counting |
| Chunking.ChunksExactly | oak_functions_launcher/src/lookup.rs:93-123 | the result is the one chunking that holds the source in order without loss or duplication, charges no chunk beyond the limit, and ends none early |
| Chunking.OvershootBound | oak_functions_launcher/src/lookup.rs:107-120 | a whole chunk exceeds the limit, or the fixed overhead if that is larger, by its first entry at most, and the first chunk not at all |
| Chunking.LimitKeptExactly | oak_functions_launcher/src/lookup.rs:107-120 | some order of the source exceeds the limit if and only if the limit is below the fixed overhead or an entry straddles two parts that fit without it and not with it |
| Chunking.LimitCanBeExceeded | oak_functions_launcher/src/lookup.rs:113-117 | a concrete source whose second chunk exceeds the limit |
| Loader.Update | oak_functions_launcher/src/lookup.rs:39-46 | sending all chunks and finishing publishes the builder's map extended by all entries in order, keeps every table published before, leaves the builder with new objects only, and panics exactly when an entry does |
| Loader.DistinctLoad | oak_functions_launcher/src/lookup.rs:93-123 | entries with distinct keys, in any order, load to exactly the source map |
| Loader.LoadAndGet | oak_functions_launcher/src/lookup.rs:82-123 | from source map to lookup, within the documented limits: every key answers as in the source, whatever the limit, the order and the reservation; the panics are exactly those of too large entries |
| LookupConcurrency.AlwaysInv | oak_functions_service/src/lookup.rs:141-208 | in every interleaving locks exclude each other, nobody but the builder refers to the builder's table, and the tables hold what was done under the builder lock |
| LookupConcurrency.BuilderApart | oak_functions_service/src/lookup.rs:46-52 | the table that insertions change in place is never the published one, one in transit, or one a view refers to |
| LookupConcurrency.ViewsNeverChange | oak_functions_service/src/lookup.rs:96-111 | a published table, and so every view of it, has the same contents in every later state of every run, although insertions change tables in place |
| LookupConcurrency.PublishedExactly | oak_functions_service/src/lookup.rs:46-71 | each published table is exactly the insertions between its finish and the finish or abort before |
| ConcurrentCalls.CallsDoTheirWork | oak_functions_service/src/lookup.rs:141-208 | in every interleaving a call that has returned has done exactly its work: its pairs inserted in order, one table taken from the builder and that one published, one dropped, or one view taken |
| ConcurrentCalls.FinishPublishes | oak_functions_service/src/lookup.rs:169-185 | a finish that has returned has published a table with exactly the insertions pending at one moment of the call, and that table stays so ever after |
| ConcurrentCalls.CreateViews | oak_functions_service/src/lookup.rs:197-208 | a creation that has returned has taken a view of what was published last at one moment of the call |
| LookupConcurrency.ViewsAreCurrent | oak_functions_service/src/lookup.rs:197-208 | a view created after a table was published shows that table or a later one |
| LookupConcurrency.LockOrder | oak_functions_service/src/lookup.rs:169-208 | nobody waits for the builder lock, or to read, while holding a lock |
| LookupConcurrency.NeverBlocked | oak_functions_service/src/lookup.rs:141-208 | while some call is under way some thread can take a step |
| LookupConcurrency.StepsCountDown | oak_functions_service/src/lookup.rs:141-208 | every step brings its call closer to its end |
| LookupConcurrency.OnlyInsideCalls | oak_functions_service/src/lookup.rs:141-208 | a thread takes steps only inside a call and begins one only outside |
| OnceCell.AtMostOneSet | oak_core/src/sync.rs:61-80 | in every interleaving at most one set succeeds |
| OnceCell.ReturnsAreRight | oak_core/src/sync.rs:46-80 | a failing set returns its own value, a successful call agrees with the cell, and no get reads before the value is written |
| OnceCell.AllAgree | oak_core/src/sync.rs:46-80 | every successful get and set of a run is about the same value |
| OnceCell.StableEverAfter | oak_core/src/sync.rs:89-93 | once initialized the cell keeps its value ever after |
| OnceCell.GetAfterSuccess | oak_core/src/sync.rs:47-55 | a get that loads the flag after any success returns that value with its next step |
| OnceCell.CallReturns | oak_core/src/sync.rs:46-80 | in every interleaving a get returns once, the value of the cell, or nothing only if the cell was not initialized when it began; a set returns once, Ok if and only if that very call initialized the cell, otherwise its own argument |
| OnceCell.OnlyInsideCalls | oak_core/src/sync.rs:46-80 | a thread takes steps only inside a call and begins one only outside |
| OnceCell.NeverBlocked | oak_core/src/sync.rs:61-80 | the spin lock never deadlocks |
| BasicFramed.AlwaysInv | oak_channel/src/basic_framed.rs:43-90 | after every interleaving the queues hold exactly the bytes written and not yet read, and the processes are in lock step |
| BasicFramed.AcksMatchAndFewInFlight | oak_channel/src/basic_framed.rs:71-80 | every acknowledgement matches, and at most 4 + 4096 bytes are on their way |
| BasicFramed.NeverDeadlocked | oak_channel/src/basic_framed.rs:43-90 | for every queue capacity of at least one byte, an unfinished transfer can go on |
| BasicFramed.StepsAreCounted | oak_channel/src/basic_framed.rs:43-90 | every step moves one byte that is never moved again |
| BasicFramed.RunsEnd | oak_channel/src/basic_framed.rs:43-90 | every run ends after a fixed number of steps |
| BasicFramed.FinishedRunDelivers | oak_channel/src/basic_framed.rs:43-90 | a run that cannot go on has delivered exactly the payload and left both queues empty |
| BasicFramed.OversizedNeverDelivered | oak_channel/src/basic_framed.rs:66-69 | a payload of 2^32 bytes or more, whose length is cut off in the header, is never delivered; what happens instead is in `Oversized` |
| Oversized.AlwaysFollows | oak_channel/src/basic_framed.rs:43-90 | the transfer of an oversized payload is, in every interleaving, the transfer of the payload cut to the announced length, with unread bytes behind it |
| Oversized.NeverReported | oak_channel/src/basic_framed.rs:43-90 | with an oversized payload the sender never reports success, and the receiver returns at most the payload cut to the announced length |
| Oversized.OversizedRunsEnd | oak_channel/src/basic_framed.rs:43-90 | such a transfer is over after a fixed number of steps |
| Oversized.OversizedEnds | oak_channel/src/basic_framed.rs:43-90 | it ends with an acknowledgement mismatch if and only if the queue takes the bytes the receiver does not read, and otherwise with the sender blocked at a known byte; the receiver has returned the cut payload as a success |
| Frames.MessageRoundTrip | oak_channel/src/message.rs:50-83 | decoding undoes encoding, and the length header is the length of the encoding |
| Frames.FrameRoundTrip | oak_channel/src/frame.rs:65-136 | a frame is read back with its flags and body, the stream behind it is untouched, and padding and unused flags are written as zeros |
| Frames.ParsesExactly | oak_channel/src/frame.rs:93-136 | a frame is parsed if and only if the bytes start with one, whatever its padding and unused flags |
| Frames.FrameFailsExactly | oak_channel/src/frame.rs:93-136 | which error a frame is refused with: a length of at most 8, a length above 4000, or too few bytes |
| Frames.Channel.ReadFrame | oak_channel/src/frame.rs:93-136 | reads piece by piece what the frame parser defines, with its errors, and appends the body |
| Frames.FramesOfData | oak_channel/src/frame.rs:145-168 | the frames carry the data in order, START on the first only, END on the last only, no body empty or too long |
| Frames.BytesIntoFrames | oak_channel/src/frame.rs:145-168 | cutting first and setting flags afterwards gives these frames; empty data is an error |
| Frames.AnyFramingReassembles | oak_channel/src/lib.rs:88-136 | any proper framing, not only the writer's, is reassembled to the bodies in order |
| Frames.ReassemblesExactly | oak_channel/src/lib.rs:88-136 | bytes are reassembled if and only if they are the frames of a proper framing with those bodies |
| Frames.PanicsExactly | oak_channel/src/lib.rs:88-136 | reading panics if and only if the stream starts with a START frame that is not the last and whose first four bytes are missing or name less than 3992, or holds a proper framing of fewer than 8 bytes |
| Frames.FailsExactly | oak_channel/src/lib.rs:88-136 | reading fails, and with which error, if and only if the first frame is refused or has no START flag, or behind it and any middle frames the next one is refused or has one |
| Frames.OneByteMessagePanics | oak_channel/src/lib.rs:88-136 | a concrete stream that panics: one START frame with a body of one byte |
| Frames.Channel.ReadMessage | oak_channel/src/lib.rs:88-136 | the loop over frames returns what the message parser defines, with all errors and panics, and consumes the message exactly |
| Frames.Channel.WriteMessage | oak_channel/src/lib.rs:138-145 | appends exactly the frames of the message; panics exactly when its length does not fit the header |
| Frames.WireRoundTrip | oak_channel/src/lib.rs:88-145 | what is written is read back as the same message, with no underflow of the capacity subtraction and the header equal to the reassembled length |
| Frames.StreamRoundTrip | oak_channel/src/lib.rs:88-145 | any messages in a row are read back in order, to the last byte |
| Frames.WriteThenRead | oak_channel/src/lib.rs:88-145 | writing all messages and reading as many returns them and empties the channel |
| Cose.KeyConversions | oak_dice/src/cert.rs:124-250 | both COSE key conversions are inverted by their readers, and neither reader takes the other's keys |
| Cose.VerifyingKeyExactly | oak_dice/src/cert.rs:178-225 | a COSE key is read as a verifying key if and only if type, algorithm, operation and curve are the required ones and the first byte strings under both labels are its coordinates |
| Cose.HpkeKeyExactly | oak_dice/src/cert.rs:124-154 | likewise for an encryption key |
| Cose.GenerateCertificate | oak_dice/src/cert.rs:310-345 | the loop adds the additional claims in order behind key and usage, and the signature covers them all |
| Cose.ClaimsByNumber | oak_dice/src/cert.rs:310-345 | the claims of a certificate by their numbers and values |
| Cose.CertifiesItsKey | oak_dice/src/cert.rs:310-371 | whatever the additional claims, the key read from a certificate is the one it was made for |
| Dice.DiceBuilder.AddLayer | oak_attestation/src/dice.rs:50-87 | the builder object does what the value model does, and an error changes nothing |
| Dice.DiceBuilder.AddApplicationKeys | oak_attestation/src/dice.rs:94-182 | likewise for the four application certificates |
| Dice.LayerKeepsChain | oak_attestation/src/dice.rs:50-87 | a layer extends the chain: signed by the previous key, issued by the previous subject, certifying the new key |
| Dice.RunsKeepChain | oak_attestation/src/dice.rs:50-212 | any number of layers and hand-overs succeed and keep the chain from the root key to the builder's key |
| Dice.HandOversVanish | oak_attestation/src/dice.rs:184-212 | hand-overs between boot stages change nothing, wherever they happen |
| DiceVerifier.ValueToRawDigest | oak_attestation_verification/src/verifier.rs:1377-1396 | succeeds if and only if every entry is a SHA2-256 byte string, and returns the last one, or an empty digest for no entry |
| DiceVerifier.FoldAcceptsChain | oak_attestation_verification/src/verifier.rs:226-247 | the fold accepts every unbroken chain and ends at its last key |
| DiceVerifier.FoldFindsChain | oak_attestation_verification/src/verifier.rs:226-247 | whatever the fold accepts is an unbroken chain |
| DiceVerifier.ChainSound | oak_attestation_verification/src/verifier.rs:212-278 | accepted evidence rests on a chain to both application certificates, and every key and measurement returned is read from a certificate on it; what they must then be is in `DiceSoundness` |
| DiceVerifier.ChainExactly | oak_attestation_verification/src/verifier.rs:212-278 | values are returned if and only if they are so justified |
| DiceVerifier.VerifySound | oak_attestation_verification/src/verifier.rs:106-148 | success on an SEV-SNP root means that the authority vouches for the chip, the chip of that identity and version signed the report, the report starts with the digest of the root key, and the chain justifies all that is returned |
| DiceVerifier.FinishedVerifies | oak_attestation/src/dice.rs:94-182 | the evidence a builder finishes passes every signature check, and all keys and claims, the group keys too, are read back |
| DiceVerifier.EveryRunVerifies | oak_attestation/src/dice.rs:50-212 | after every builder run the signature checks succeed, and the keys, issuer and claims read back are those put in |
| DiceVerifier.KernelReadsBack | oak_attestation_verification/src/verifier.rs:1284-1309 | all kernel measurements put into a certificate are extracted from it unchanged |
| DiceVerifier.FinalReadsBack | oak_attestation_verification/src/verifier.rs:1320-1338 | code and configuration of a final layer are extracted unchanged, and under no other layer's name |
| DiceExtraction.KernelExactly | oak_attestation_verification/src/verifier.rs:1284-1309 | a kernel layer is extracted if and only if the first map under its number holds all six digests, each the first under its number, and a text as command line or none |
| DiceExtraction.SystemExactly | oak_attestation_verification/src/verifier.rs:1312-1318 | likewise for the system image |
| DiceExtraction.ContainerExactly | oak_attestation_verification/src/verifier.rs:1321-1328 | likewise for a container, with code and configuration |
| DiceExtraction.ApplicationExactly | oak_attestation_verification/src/verifier.rs:1331-1338 | likewise for an enclave application |
| DiceExtraction.CertifiedExactly | oak_dice/src/cert.rs:346-371 | a certificate certifies a verifying or an encryption key if and only if the first byte string among its key claims is a serialized COSE key that reads as one |
| DiceExtraction.NextIssuerExactly | oak_attestation/src/dice.rs:58-66 | the next issuer is the subject of the last layer, and there is none without a layer, claims or subject |
| DiceExtraction.BuilderFailsExactly | oak_attestation/src/dice.rs:50-182 | both builder operations fail if and only if there is no issuer |
| DiceExtraction.RestoredExactly | oak_attestation/src/dice.rs:184-212 | a builder is restored from exactly what it was serialized to, and from nothing without evidence or key |
| DiceVerifier.HonestContainersVerify | oak_attestation_verification/src/verifier.rs:1137-1186 | an honest Oak Containers boot, on a genuine chip or outside of a TEE, with any hand-overs and with or without group keys, is accepted if and only if what it measured matches, and returned as that |
| DiceVerifier.HonestRestrictedKernelVerify | oak_restricted_kernel_dice/src/lib.rs:66-175 | an honest restricted-kernel boot likewise |
| DiceSoundness.NoSubstitution | oak_attestation_verification/src/verifier.rs:212-278 | if the keys of an honest boot have signed nothing else that is presented, accepted evidence from the same root has the layers of that boot and two of its application certificates, or goes on from a signing key its last key certified |
| DiceSoundness.ContainersNotSubstituted | oak_attestation_verification/src/verifier.rs:1137-1186 | such evidence from the root of an Oak Containers boot returns exactly the measurements of that boot with its keys, or no measurement at all, and says when |
| DiceSoundness.RestrictedKernelNotSubstituted | oak_attestation_verification/src/verifier.rs:1137-1213 | likewise for an enclave application on the restricted kernel |
| DiceSoundness.RootForced | oak_attestation_verification/src/verifier.rs:106-137 | on a genuine chip the report and the root key are those of the boot |
| DiceSoundness.ContainersUnforgeable | oak_attestation_verification/src/verifier.rs:106-148 | from the chip to the application, if the keys of one honest boot have signed nothing else: whatever is accepted on an SEV-SNP root returns the report of that boot, and its measurements and keys or no measurement |
| DiceSoundness.RestrictedKernelUnforgeable | oak_attestation_verification/src/verifier.rs:106-148 | likewise for the restricted kernel |
| DiceSoundness.KindsMustAgree | oak_attestation_verification/src/verifier.rs:185-207 | expected values of Oak Containers or the restricted kernel are never matched by evidence without a measurement |
| DiceSoundness.ExpectedKindOnly | oak_attestation_verification/src/verifier.rs:185-207 | whatever is accepted is of the kind that was expected and passed its comparison |
| DiceSoundness.HonestContainersExpected | oak_attestation_verification/src/verifier.rs:185-207 | an honest Oak Containers boot is accepted if and only if the expected values are of Oak Containers and compare |
| DiceSoundness.HonestRestrictedKernelExpected | oak_attestation_verification/src/verifier.rs:185-207 | an honest restricted-kernel boot likewise |
| DiceSoundness.ContainersExactly | oak_attestation_verification/src/verifier.rs:106-207 | if the expected values are of a kind that evidence without a measurement does not match, whatever is accepted returns exactly the report, measurements and keys of that boot |
| DiceSoundness.RestrictedKernelExactly | oak_attestation_verification/src/verifier.rs:106-207 | likewise for the restricted kernel |
| DiceSoundness.NoMeasurementExplained | oak_attestation_verification/src/verifier.rs:212-278 | evidence accepted without a measurement carries the group's encryption key, or something in it was signed with a signing key of the application or the group |
| DiceSoundness.HonestContainersQualify | oak_attestation_verification/src/verifier.rs:212-278 | the evidence of an honest boot, with or without group keys, meets the assumptions on its keys when the keys of its layers are different |
| DiceSoundness.HonestRestrictedKernelQualifies | oak_attestation_verification/src/verifier.rs:212-278 | likewise for the restricted kernel |
| DiceSoundness.HonestRootQualifies | oak_attestation_verification/src/verifier.rs:106-137 | its root layer on its own chip meets the assumptions on the root |
| DiceSoundness.ContinuedClaimsNothing | oak_attestation_verification/src/verifier.rs:226-247 | evidence continued with the application's signing key is refused if it claims a container or an application, and otherwise returned as `Cb`, without a measurement |
| Base64.DecodesExactly | oak_attestation_verification/src/util.rs:45-51 | decoding accepts exactly the encodings: one text for each byte string |
| Base64.SextetTable | oak_attestation_verification/src/util.rs:45-51 | the characters are those of the table in section 4 of RFC 4648 |
| Base64.SameBits | oak_attestation_verification/src/util.rs:45-51 | four characters are the 24 bits of three bytes, highest first, with padding exactly for missing bytes |
| Pem.ConvertRawToPem | oak_attestation_verification/src/util.rs:49-61 | the loop produces the header, the wrapped text and the footer |
| Pem.PemRoundTrip | oak_attestation_verification/src/util.rs:36-61 | every byte string survives the way to PEM and back |
| Pem.PanicsExactly | oak_attestation_verification/src/util.rs:29-42 | reading panics if and only if the text does not look like PEM or its header and footer overlap |
| Pem.OverlapPanics | oak_attestation_verification/src/util.rs:29-42 | a concrete text that looks like PEM and panics |
| Pem.PemReadsExactly | oak_attestation_verification/src/util.rs:35-46 | a text is read if and only if it is a body between header and footer with white space around, and then the body without line breaks is decoded |
| Pem.WhitespaceExactly | oak_attestation_verification/src/util.rs:29-42 | what is trimmed are the 25 characters that Unicode calls white space |
| Pem.WrappedInLines | oak_attestation_verification/src/util.rs:51-56 | the text is its lines, all of 64 characters but the last, which is not empty |
| Digests.DigestMatch | oak_attestation_verification/src/util.rs:149-223 | the counting gives the verdict: same, different, undecidable or contradictory, by the nine named fields that both sides give |
| Digests.EveryFieldCounts | oak_attestation_verification/src/util.rs:149-223 | each of the nine fields decides by itself when it is the only one given |
| Digests.OtherFieldsDoNotCount | oak_attestation_verification/src/util.rs:149-223 | digests without a field that both give are undecidable |
| Digests.RawMatchIsDirect | oak_attestation_verification/src/util.rs:226-228 | comparing raw digests through hexadecimal is comparing their bytes |
| Digests.DigestRoundTrip | oak_attestation_verification/src/util.rs:253-300 | raw digests survive the way to hexadecimal and back |
| Digests.DigestDecodesExactly | oak_attestation_verification/src/util.rs:268-300 | hexadecimal digests are decoded field by field, and only if all nine can be |
| Digests.HexAt | oak_attestation_verification/src/util.rs:253-266 | two digits a byte, the higher half first, in lower case |
| Digests.HexCanonical | oak_attestation_verification/src/util.rs:268-300 | what decodes is the encoding of the result up to upper case |
| Digests.HexDecodesExactly | oak_attestation_verification/src/util.rs:268-300 | a text is decoded if and only if it is the encoding of the result up to upper case |
| Digests.CompareMeasurement | oak_attestation_verification/src/verifier.rs:862-879 | accepted if and only if skipped, or some listed digest shares a given field and differs in none |
| Digests.Sha256Decides | oak_attestation_verification/src/verifier.rs:862-879 | a measurement that gives only SHA2-256 is accepted if and only if a listed digest has the same |
| Digests.LongerListsAccept | oak_attestation_verification/src/verifier.rs:862-879 | a longer list of expected digests never causes a rejection |
| Utf8.Injective | oak_attestation_verification/src/rekor.rs:179 | two texts with the same UTF-8 bytes are the same |
| Utf8.Example | oak_attestation_verification/src/rekor.rs:179 | the first example of section 7 of RFC 3629 |
| Rekor.BundleExactly | oak_attestation_verification/src/rekor.rs:150-179 | an entry is accepted if and only if neither string has a quote and its timestamp is the Base64 text of the returned signature, and the returned bytes are the UTF-8 of the object with both strings as they are |
| Rekor.CanonicalUnambiguous | oak_attestation_verification/src/rekor.rs:150-179 | two accepted entries have the same signed bytes only if body, time, log ID and index are the same |
| Rekor.CanonicalExactly | oak_attestation_verification/src/rekor.rs:151-166 | the hard-coded bytes are those of the RFC 8785 rendering if and only if neither string has a character to escape |
| Rekor.KnownEscapes | oak_attestation_verification/src/rekor.rs:151-166 | the escapes that section 3.2.2.2 of RFC 8785 names |
| Rekor.BackslashNotEscaped | oak_attestation_verification/src/rekor.rs:151-166 | a concrete entry that is accepted with another text than RFC 8785 requires |
| RekorEscapes.UnescapesExactly | oak_attestation_verification/src/rekor.rs:151-166 | RFC 8785 escaping is undone, and nothing but its results is |
| RekorEscapes.MistakenExactly | oak_attestation_verification/src/rekor.rs:151-166 | an accepted entry is checked against the RFC 8785 text of another one if and only if both its strings are results of escaping and one of them holds an escape |
| RekorEscapes.LineFeedMistaken | oak_attestation_verification/src/rekor.rs:151-166 | a concrete pair of such entries |
| Rekor.KeysInOrder | oak_attestation_verification/src/rekor.rs:160-166 | the members of every entry are in the order section 3.2.3 of RFC 8785 requires, and the hard-coded text is their rendering in that order when nothing needs escaping |

## Left out

- Allocation failure, and the 64-bit overflow of table lengths and data sizes while the lookup table grows.
- The statistical quality of the hash function, and all timing and caching.
- `insert` and `inserter` of the manager as methods of their own: they are one-pair extensions of the builder's table.
- Length-delimited entries in an extend request, gRPC, micro RPC, and errors of the transport while loading.
- Saturation of the chunk size estimate at 64 bits.
- Timers, logging and buffer capacity in the channel; only the capacity subtraction is kept.
- The length of a channel read that is interrupted: a short stream is the error `Eof`.
- The response message, whose encoding is the same as the request's.
- In the verifier: comparison with endorsements and reference values other than digests (a parameter of `Verify`), regular expressions, TCB and debug-flag checks, Intel TDX, and the parsing and validity period of X.509 certificates and reports. A malformed key or text that makes the original panic counts as rejected.
- DiceVerifier.ChainSound: names the certificate each value is read from, with the reading functions themselves; that nothing else can be read is `DiceSoundness.NoSubstitution` and its consequences.
- DiceVerifier.ChainExactly: likewise.
- DiceVerifier.VerifySound: likewise; what the root then must be is `DiceSoundness.RootForced`.
- ECDSA, RSA, HPKE, HKDF and SHA themselves: signatures are symbolic, key identifiers are free terms, hashes are parameters.
- Claim names that the CWT library refuses to build.
- The numbers of RFC 8785 above 2^53, which that standard writes as floating point.
- Verification of the endorsement's signature in the Rekor body, and the JSON parsing before it.
- Hardware memory ordering in `OnceCell`, and the zeroing of key memory in the DICE builder.
