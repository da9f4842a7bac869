# Verified models of the WazabiEDR agent

WazabiEDR is an endpoint agent for Windows. It spools kernel and plugin events to disk and ships them to a
server, runs plugins that connect over a named pipe, polls the service manager, and applies rule templates.
This project models the parts of the agent that are plain logic and proves what they promise. `dafny verify
dfyconfig.toml` checks all of it.

| area | files | what is proved |
|---|---|---|
| SHA-256 | `Bytes`, `Primes`, `Sha256Spec`, `Sha256`, `FileHash` | The buffered in-place hasher computes the digest of FIPS 180-4 however its input is cut; its constant tables are the roots of primes the standard says they are. |
| Time stamps | `Text`, `Calendar`, `Timestamp` | The closed-form date conversion is the Gregorian calendar turned one page a day; printed time stamps read back to their instants and sort as them. |
| Spool and shipper | `BatchNames`, `Sorting`, `Eviction`, `Spool`, `SpoolWriter`, `Shipper`, `Pipeline` | Conservation of lines over every run of producers and writer, the directory cap and its order of eviction, bounded back-off, and exactly when delivery is at least once over every interleaving with the shipper, across restarts. |
| Plugin channel | `Framing`, `Manifests`, `Session`, `Acceptor`, `Supervisor` | Framing over short reads, what a session lets through, that concurrent sessions are counted and do not mix, one supervising thread per plugin, exactly when a launch is of a manifest that is no longer on disk, and which edits of the manifest directory are noticed. |
| Event XML | `Entities`, `XmlFields` | The field scanner undoes rendering; entity decoding undoes escaping exactly under a stated condition. |
| Services | `Services` | Replaying the reports rebuilds the snapshot; a cached config is never more than ten successful cycles old. |
| Base64 | `Base64` | The decoder undoes the encoding of RFC 4648, section 4, through any white space, and exactly which other texts it takes. |
| Rule templates | `TemplateRules` | Greedy acceptance: order, disjointness, one verdict for each rule, and independence of the rejected rules. |

Where the source changes state step by step the model does too (classes `Hasher`, `ActiveFile`, `Writer`, `Loop`,
`ReadStream`, `WriteStream`, `Launcher`, and methods with loops), and each method is proved against a function or
predicate whose own properties are the lemmas below. Concurrency (writer and shipper, acceptor and workers,
scanner and supervising threads) is modelled as runs of atomic steps in any order. Clock readings, I/O results,
directory listings, the JSON, zstd and Waza codecs, file hashes and signature checks are parameters.

Five promises turned out not to hold without a condition. Each has a concrete input on which it fails and the
exact condition under which it holds:

- Batch names sort in rotation order (`src/spool/writer.rs:320-323`, `src/shipper/run.rs:276-279`): not within one
  second, where the tenth batch sorts before the ninth (`BatchNames.TenthBatchSortsFirst`); exactly when is
  `BatchNames.WithinOneSecond`.
- A sealed batch, of this run or left by an earlier one, leaves the disk only after an acknowledgement of its content
  or by the cap: not if the agent restarts within the second of a leftover batch and seals over it. An unsent leftover
  is overwritten (`Pipeline.RestartOverwritesALeftover`), or the new batch is removed for the leftover's
  acknowledgement (`Pipeline.RestartWithinASecondLosesABatch`). It holds throughout a run exactly if no step unlinks
  or overwrites the only copy of a batch (`Pipeline.LostExactlyWhen`, `Pipeline.AccountedExactlyWhen`); never
  creating a file under the name of a leftover is enough (`Pipeline.NothingIsLost`) and not necessary, since the name
  of one that is acknowledged can be used again.
- Revoked manifests are never launched (`src/plugin/manifest.rs:74-75`): the supervisor looks at the file only while
  a process runs, so a plugin that keeps failing to start is launched again and again after it is revoked
  (`Supervisor.RevokedIsLaunchedAgain`), and one removed around a crash once more
  (`Supervisor.RemovedIsLaunchedAgain`). A launch is of a revoked or removed plugin exactly if the file changed so
  since the last look (`Supervisor.OutdatedExactlyWhen`).
- Decoding XML entities takes escaping back: not for a text that spells out an entity
  (`Entities.EntityTextIsLost`); exactly when is `Entities.DecodeUndoesEscapeIf`.
- Base64 decoding takes only encodings: not so (`Base64.NotCanonicalAndAccepted`); which of the accepted texts are
  encodings is `Base64.ReencodesIfCanonical`.

Where comments and code of the source disagree the model follows the code: batches are not renamed into place, the
`.zst` is created under its final name; an accepted rule keeps its untrimmed source (`src/control/sync.rs:262` says
trimmed); a rejected batch is picked again; `expected_signer` only asks for some valid signature; and the "duplicate
plugin id" branch of the manifest loader cannot be reached in a directory, where file names are distinct.

## Model

| member | source | states |
|---|---|---|
| Sha256Spec.RoundConstantsAreCubeRoots | src/control/executor.rs:947-956 | For every round t, the constant is the first 32 fractional bits of the cube root of the t-th entry of the prime table (FIPS 180-4, section 4.2.2), by integer bounds. |
| Sha256Spec.InitialValueIsSquareRoots | src/control/executor.rs:961-964 | The initial state holds the fractional bits of the square roots of the first eight entries (section 5.3.3). |
| Primes.PrimesAreListed | src/control/executor.rs:947-956 | The 64 numbers the constants are the roots of are the primes up to 311: a number is in the table if and only if it is one. |
| Primes.PrimesIncrease | src/control/executor.rs:947-956 | The table is in increasing order, so round t has the t-th prime. |
| Sha256Spec.PaddingIsTheLeast | src/control/executor.rs:989-1005 | The zeros of the padding are the least number that section 5.1.1 asks for, for every length. |
| Sha256Spec.BigEndianIsTheNumber | src/control/executor.rs:1003 | The length field holds the number: reading its bytes back gives every value that fits. |
| Sha256Spec.WordOfIsTheNumber | src/control/executor.rs:1015-1022 | A word of the schedule is the number its four bytes are written as, the most significant first. |
| Sha256Spec.BytesOfIsTheNumber | src/control/executor.rs:1006-1008 | For every word the four bytes that leave are its number, the most significant first. |
| Sha256Spec.AddIsModulo | src/control/executor.rs:1057-1065 | The sum of two words is their sum as numbers modulo 2^32. |
| Sha256Spec.DigestIsTheHashValue | src/control/executor.rs:1006-1009 | Each four bytes of the digest are, as a number, the word of the hash value in that place. |
| Sha256.RoundTemporaries | src/control/executor.rs:1038-1046 | The rotations and sums of a round are T1 and T2 of section 6.2.2, step 3. |
| Sha256.ExpandWord | src/control/executor.rs:1023-1028 | The body of the schedule loop is the recurrence of section 6.2.2, step 1. |
| Sha256.Hasher.FillSchedule | src/control/executor.rs:1013-1029 | The array `w` is filled in place with the message schedule of the block. |
| Sha256.Hasher.RunRounds | src/control/executor.rs:1030-1056 | Eight rotating registers over 64 turns compute the recursively specified rounds. |
| Sha256.Hasher.Compress | src/control/executor.rs:1012-1066 | The in-place compression replaces the state by the standard's next hash value. |
| Sha256.AbsorbBlock | src/control/executor.rs:979-983 | Compressing a full buffer keeps: state is the fold over all full blocks, buffer is the tail. |
| Sha256.AbsorbPart | src/control/executor.rs:975-978 | Buffering less than a block keeps the same invariant. |
| Sha256.PadInOneBlock | src/control/executor.rs:999-1005 | A tail below 56 bytes, the marker, zeros and length are the rest of the padded message in one block. |
| Sha256.PadInTwoBlocks | src/control/executor.rs:991-1005 | A tail of 56 bytes or more takes two blocks, which together are the rest of the padded message. |
| Sha256.Hasher.constructor | src/control/executor.rs:959-969 | A new hasher has absorbed the empty message. |
| Sha256.Hasher.Update | src/control/executor.rs:971-985 | Whatever was waiting and however long the data, the absorbed message grows by exactly the data. |
| Sha256.Hasher.Finalize | src/control/executor.rs:987-1010 | The output is the digest of everything absorbed, for all messages below 2^61 bytes; beyond that the length field wraps. |
| FileHash.HashFile | src/control/executor.rs:424-436 | The hex digest of a file is that of its contents for every sequence of read sizes; a failed read is an error. |
| FileHash.HexRoundTrip | src/control/executor.rs:1069-1077 | The hex text determines the bytes, so comparing texts compares digests. |
| Calendar.NextDayCountsOne | src/plugin/server.rs:989-998 | Turning one page of the naive calendar adds one to the day count, through every month and leap rule. |
| Calendar.YearOfEraIsYear | src/plugin/server.rs:992 | The corrected division finds the year of every day of the 400-year era. |
| Calendar.CivilInvertsDays | src/plugin/server.rs:989-998 | The closed form inverts the day count for every Gregorian date from 1970 on. |
| Calendar.ClosedFormIsTheCalendar | src/plugin/server.rs:984-998 | For every number of days the closed form gives the date reached by stepping the calendar day by day; it is a valid date and counts back to the same number. |
| Calendar.DatesAreOrdered | src/plugin/server.rs:989-998 | More days give a later date. |
| Calendar.YearHasFourDigits | src/plugin/server.rs:998-1003 | Every u64 nanosecond count falls in a year of four digits, so the cast and the width are safe. |
| Timestamp.FormatIsFixed | src/plugin/server.rs:1000-1003 | The printed text always has 24 characters with each field in its fixed width. |
| Timestamp.TimestampReadsBack | src/plugin/server.rs:978-1004 | For every u64: the digits in their places are a date of the calendar and a time of day, the separators are in theirs, and the day count of the date with the time of day is the number of milliseconds. |
| Timestamp.TimestampOrder | src/plugin/server.rs:978-1004 | For all u64 inputs: text order is the order of milliseconds, and equal texts mean equal milliseconds. |
| Text.PaddedIsFixed | src/plugin/server.rs:1000-1003 | Zero-padded printing of a number that fits gives exactly the field width. |
| Text.DecimalReadsBack | src/spool/writer.rs:296-302 | A printed number consists of digits, reads back as the number and has no zero in front. |
| Text.WhitespaceIsListed | src/plugin/server.rs:942 | White space, which trimming takes away, is the 25 characters with that property in Unicode. |
| BatchNames.NameOrder | src/spool/writer.rs:296-302 | The exact lexicographic order of unpadded batch names, both directions. |
| BatchNames.NamesAreDistinct | src/spool/writer.rs:296-302 | Different time stamps or sequence numbers give different names. |
| BatchNames.BatchNameReadsBack | src/spool/writer.rs:296-302 | A batch name is `batch-`, the clock reading, `-`, the number and `.zst`, and both numbers read back. |
| BatchNames.LaterSecondSortsLater | src/spool/writer.rs:320-323 | With clock readings of equal width, a later second sorts later. |
| BatchNames.WithinOneSecond | src/spool/writer.rs:320-323 | Within one second names sort in sealing order if and only if the earlier number is at most the leading digits of the later one. |
| BatchNames.TenthBatchSortsFirst | src/spool/writer.rs:320-323 | Number 10 sorts before number 9: the promise of rotation order fails. |
| Sorting.SortedIsUnique | src/spool/writer.rs:349 | A set of entries has one order by name. |
| Sorting.ListingOrderIsIrrelevant | src/spool/writer.rs:325-349 | Two listings of one directory sort to the same sequence. |
| Eviction.CollectBatches | src/spool/writer.rs:330-343 | Exactly the batch files are collected, with the sum of their sizes. |
| Eviction.BatchNameShape | src/spool/writer.rs:330-343 | A file counts as a batch if and only if its name is `batch-`, anything, and `.zst`. |
| Eviction.EvictInOrder | src/spool/writer.rs:351-360 | With any removals failing, the running total stays the sum of the surviving sizes and the subtraction never saturates. |
| Eviction.EnforceTotalSizeCap | src/spool/writer.rs:324-361 | What is left, its total and the number evicted, for every listing and every pattern of failures. |
| Eviction.EvictsShortestPrefix | src/spool/writer.rs:345-360 | With successful removals exactly the shortest prefix in name order goes that brings the rest under the cap. |
| Eviction.OverTheCapIsStuck | src/spool/writer.rs:351-360 | If the rest is still over the cap, none of it could be removed. |
| Eviction.EvictedWereRemovable | src/spool/writer.rs:355-358 | Only what could be removed is gone. |
| Eviction.EvictedSortFirst | src/spool/writer.rs:349-360 | With any removals failing, what is evicted sorts before everything that stays and could have gone. |
| Spool.StepKeeps | src/spool/writer.rs:189-316 | Every event keeps the accounts, the order of lines and the size limit, failures included. |
| Spool.Conservation | src/spool/writer.rs:97-105 | In every run: submissions are written, dropped, queued or stranded; held lines keep their order without duplicates; without failures batches, active file and channel are exactly the accepted lines; nothing is left on exit. |
| Spool.NothingFailsNothingIsLost | src/spool/writer.rs:189-256 | If every write, seal and reopening of a run succeeds, all accepted lines are in order in batches, active file and channel, and all in batches once the writer has exited. |
| Spool.WriterOutlivesSenders | src/spool/writer.rs:241-252 | Without failures the writer exits only after the last sender is gone. |
| Spool.CountersAreExact | src/spool/writer.rs:97-105 | In every run with any failures: lines counted as written are in a batch, in the active file or were lost with a failed seal; dropped ones were refused or failed to be written; every accepted line is held, lost with a seal or a write, or stranded. |
| Spool.BatchCountersAreExact | src/spool/writer.rs:288-316 | In every run the evictions counted are those that happened, and without failures so are the batches. |
| Spool.TurnedAwayWhenFull | src/spool/writer.rs:97-105 | In every run a submission is turned away if and only if the channel is full or the writer gone, and is queued last otherwise. |
| Spool.CutOnTime | src/spool/writer.rs:225-258 | Every sealed batch has lines and without its last one was below the limit, and an open file is below it. |
| Spool.CapOfDirectory | src/spool/writer.rs:324-361 | The cap computed from a listing in any order is the cap on the directory in name order. |
| Spool.CapOverRuns | src/spool/writer.rs:313-361 | After every completed seal of every run, from any directory of batches, the total is within the cap or nothing that is left could be removed; what went could be removed and sorts before what could and stays. |
| Spool.EvictionOrder | src/spool/writer.rs:296-360 | What is evicted precedes what stays in the exact printed order of clock reading and number: not of a later second for readings of equal width, and within one second of a smaller number for numbers of equal width. |
| Spool.YoungerGoesFirst | src/spool/writer.rs:320-323 | Within one second the cap can take the tenth batch and keep the ninth. |
| SpoolWriter.ActiveFile.WriteLine | src/spool/file.rs:55-59 | The counter stays the sum of the line lengths; a failed write changes nothing that is counted. |
| SpoolWriter.Writer.TrySubmit | src/spool/writer.rs:97-105 | A submission returns true exactly if the line entered the channel, and is counted as dropped otherwise. |
| SpoolWriter.Writer.SealActiveFile | src/spool/writer.rs:288-316 | Sealing does what the step function says at each point of failure, the sequence number used up once the flush succeeds. |
| SpoolWriter.Writer.Rotate | src/spool/writer.rs:263-282 | Rotation seals and reopens; a failed reopen leaves no active file. |
| SpoolWriter.Writer.OnLine | src/spool/writer.rs:210-229 | Receiving a line writes it, counts it and rotates exactly when the limit is reached. |
| SpoolWriter.Writer.OnTimeout | src/spool/writer.rs:230-240 | A time-out rotates exactly if something has been written. |
| SpoolWriter.Writer.OnDisconnected | src/spool/writer.rs:241-252 | Disconnection seals what has been written and leaves no active file. |
| SpoolWriter.Writer.WriterMain | src/spool/writer.rs:189-256 | The loop among its producers refines the step function over every interleaving of events. |
| Shipper.OldestBatch | src/shipper/run.rs:280-303 | The result is the smallest batch name over all readable directories, the earlier directory winning ties, or nothing exactly if there is no batch. |
| Shipper.OldestIsUnique | src/shipper/run.rs:280-303 | That determines the result. |
| Shipper.JitterIsAQuarter | src/shipper/run.rs:333-350 | For every seed the value before capping is within a quarter of its base, above it for even seeds and below it for odd ones, and does not leave 64 bits. |
| Shipper.BackoffDoubles | src/shipper/run.rs:322-350 | The wait after a failure is within a quarter of twice the one before, or of a second after none, up to the cap. |
| Shipper.FirstFromOne | src/shipper/run.rs:333-350 | The generator of the jitter is xorshift with shifts 13, 7 and 17, by its first three numbers. |
| Shipper.BackoffGrows | src/shipper/run.rs:322-350 | From the bounds after k failures follow the bounds after k + 1, for every cap and every clock reading. |
| Shipper.Loop.Turn | src/shipper/run.rs:127-159 | What one attempt does to the back-off, the counters and the sleep, by outcome. |
| Shipper.Loop.ShipperMain | src/shipper/run.rs:125-160 | After k transient failures in a row the sleep lies between min(750 * 1.5^(k-1), 0.75 * max) ms and max, over every sequence of outcomes. |
| Pipeline.StepKeeps | src/spool/writer.rs:288-361 | Every step of a writer or of the shipper that reuses no leftover's name keeps the invariant, in which each batch of this run and of earlier ones is accounted for and what is being sent is its full content, and takes away the only copy of none. |
| Pipeline.LostExactlyWhen | src/shipper/run.rs:127-136 | At any state, a batch that is on disk, acknowledged or evicted stops being any of these if and only if the step unlinks its name, or creates a different file under it, while it is on disk, unacknowledged and not evicted. |
| Pipeline.AccountedExactlyWhen | src/shipper/run.rs:127-136 | For every run and whatever earlier runs left: all batches are accounted for at every moment if and only if no step of the run meets that guard. |
| Pipeline.NothingIsLost | src/shipper/run.rs:127-136 | Over every interleaving that reuses no leftover's name: at every moment each batch, of this run or left by an earlier one, is on disk, acknowledged in full or evicted, and in a spool without failures each accepted line is in a batch, the active file or the channel. |
| Pipeline.WhatTakesABatch | src/shipper/run.rs:129-131 | Under new names, a step that takes a batch of this run or an earlier one off the disk is the cap, or an unlink after a 2xx for exactly its content. |
| Pipeline.RestartWithinASecondLosesABatch | src/spool/writer.rs:296-305 | A run in which a batch is sealed over a leftover of the same second and removed without having been sent. |
| Pipeline.RestartOverwritesALeftover | src/spool/writer.rs:296-305 | A run without any sending in which an unsent leftover is replaced by a batch sealed in the same second. |
| Framing.ReadStream.Read | src/plugin/protocol.rs:219-224 | What a read may do: some of the bytes, zero only at the end, or an error without effect. |
| Framing.ReadExactOrTruncated | src/plugin/protocol.rs:216-227 | The buffer is filled with exactly the next bytes for every pattern of short and interrupted reads; it fails exactly at the end of the bytes or on a failing read. |
| Framing.ReadFrame | src/plugin/protocol.rs:234-264 | One call takes exactly one frame off the front and nothing beyond it; an oversized length is refused with every body byte still unread. |
| Framing.WriteFrame | src/plugin/protocol.rs:267-277 | A frame goes out whole if and only if it has an encoding within the cap and both writes and the flush succeed; otherwise not at all, or as a prefix when the pipe breaks; the size errors are exactly for bodies over the cap. |
| Framing.LengthsAreDistinct | src/plugin/protocol.rs:254 | The four bytes are the number with the least significant first, and encoding the number gives them back. |
| Framing.FramesRoundTrip | src/plugin/protocol.rs:229-264 | For every list of bodies of at most 1048576 bytes, reading the concatenated frames gives exactly those bodies and then a clean end. |
| Framing.CutAnywhere | src/plugin/protocol.rs:229-264 | Cut anywhere, a stream reads as exactly the frames that are whole, ending cleanly if and only if the cut is between two frames and truncated otherwise. |
| Framing.TooLargeIsRefused | src/plugin/protocol.rs:255-257 | After any frames, a length over 1048576 is refused and all that follows is unread. |
| Framing.NoWrongFrame | src/plugin/protocol.rs:229-264 | For every byte sequence the frames read are those of bodies that lead the bytes, and a clean end means nothing else was sent. |
| Manifests.LoadOne | src/plugin/manifest.rs:200-230 | A file loads if and only if it parses, is named after its plugin and declares an integrity check, and gives the manifest it holds. |
| Manifests.EnrolsExactlyWhen | src/plugin/manifest.rs:157-230 | A file enrols a plugin if and only if it is named after it, parses, declares that id and an integrity check. |
| Manifests.LoadDir | src/plugin/manifest.rs:146-180 | Each plugin some file enrols is in the store, with the first file that enrols it; in a directory there are no duplicates. |
| Manifests.LoadedByItsId | src/plugin/manifest.rs:162-172 | In a store loaded from a directory every manifest is kept under the id it declares. |
| Manifests.LoadingIgnoresOrder | src/plugin/manifest.rs:157-177 | The store does not depend on the order of the listing. |
| Manifests.DirectoryFingerprint | src/plugin/manifest.rs:260-307 | The loops compute the fingerprint of a listing, FNV-1a over the files in name order, zero for an unreadable directory. |
| Manifests.FingerprintIgnoresOrder | src/plugin/manifest.rs:249-251 | Two listings of one directory give the same bytes to hash. |
| Manifests.MixIsInjective | src/plugin/manifest.rs:293-304 | A hash step merges neither two states nor two bytes: the prime is invertible modulo 2^64. |
| Manifests.LocalEdit | src/plugin/manifest.rs:253-258 | An edit of one stretch of the hashed bytes goes unnoticed if and only if the hash of that stretch, from where it stands, is the same. |
| Manifests.OneByteIsNoticed | src/plugin/manifest.rs:253-258 | From any state of the hash, a change of any single byte changes the result. |
| Manifests.EditUnnoticedExactlyWhen | src/plugin/manifest.rs:291-306 | Two listings that differ in one file's time stamp or size have the same fingerprint if and only if the hash takes the little-endian bytes of both, after the fingerprint of the files that sort before it and its name, to the same value. |
| Manifests.OneByteOfStampIsNoticed | src/plugin/manifest.rs:297-304 | If time stamp or size of one file change in a single byte of their little-endian representation the fingerprints differ. |
| Manifests.TestVectors | src/plugin/manifest.rs:284-306 | The hash gives the published values of 64-bit FNV-1a. |
| Session.ValidateHandshake | src/plugin/server.rs:687-726 | Bound to the store's manifest if and only if every check passes; otherwise the reason is the first check that fails. |
| Session.AdmittedExactlyWhen | src/plugin/server.rs:687-726 | A client is let in if and only if it speaks schema 1, its plugin is enrolled and not revoked, it runs from the manifest's path, its file has the pinned hash if one is pinned, and a valid signature if one is asked for. |
| Session.AdmittedIsPinned | src/plugin/server.rs:705-723 | With a store loaded from a directory, an admitted client runs from the path the manifest gives, has the pinned hash but for letter case or a valid signature, and goes by the id its manifest file is named after. |
| Session.ServeFrames | src/plugin/server.rs:632-680 | The steady-state loop serves exactly what the remaining bytes read as, and on a pipe that fails exactly the frames delivered whole before it did. |
| Session.HandleSession | src/plugin/server.rs:570-683 | Outcome, counters and emitted records are those of the frames the bytes read as, or on a pipe that fails of those delivered whole; the acknowledgement is sent if and only if the client passes every check and the write succeeds, and a refused client is told the reason. |
| Session.OnlyTheAdmittedAreHeard | src/plugin/server.rs:600-654 | For every frame sequence, each record emitted follows a successful handshake, is an event that was sent, and carries the id and name in the bound manifest, the process id of the client and the session's own id. |
| Session.CountersOfSession | src/plugin/server.rs:578-680 | Which ending a session has by identity, checks and acknowledgement, and what each adds to the counters. |
| Session.EventsGoThrough | src/plugin/server.rs:632-680 | Cut anywhere after the hello, exactly the events that arrived whole are emitted, once and in order, and the session counts as clean if and only if the cut is between frames. |
| Session.HearAdmitted | src/plugin/server.rs:570-683 | The whole session on a pipe that does not fail: a client that passes the checks and sends events is served, and exactly the events that arrived whole are emitted, however short the reads. |
| Session.EndsTheSession | src/plugin/server.rs:653-668 | After a goodbye, or a second hello, which counts as invalid, no byte is read as anything. |
| Acceptor.StepKeeps | src/plugin/server.rs:292-352 | Every atomic step of acceptor, workers and reload keeps counter, limit, snapshots and attribution. |
| Acceptor.SessionsAreCounted | src/plugin/server.rs:289-352 | In every run the counter is live workers plus at most one undecided client, live workers never exceed 64, and every client is accounted for. |
| Acceptor.RefusedWhenFull | src/plugin/server.rs:292-304 | A client is refused for want of room if and only if 64 workers are live when it is counted. |
| Acceptor.OnlyTheAdmittedAreHeard | src/plugin/server.rs:306-339 | In every interleaving with reloads each emission follows a handshake against a store no older than the connection, and carries the id and name in that store's manifest, the process and the session. |
| Acceptor.RevokedIsNotHeard | src/plugin/server.rs:306-319 | A client that connects once its plugin is revoked or gone in every later store never emits, and no record of such a client carries the id. |
| Acceptor.SessionsDoNotMix | src/plugin/server.rs:306-352 | However connections, sessions and reloads interleave, each worker emits exactly the records a session alone emits for the frames it hears, against one of the shared stores. |
| Supervisor.BackoffIsPower | src/plugin/supervisor.rs:473-480 | Doubling under the cap gives min(2^k, 60) at every k. |
| Supervisor.WaitForExitOrChange | src/plugin/supervisor.rs:350-434 | The wait ends at the first poll that gives a reason, with that reason, for every sequence of polls; a read error or a cosmetic change of the manifest never ends it. |
| Supervisor.NewManifestEndsTheWait | src/plugin/supervisor.rs:385-453 | A manifest found while the process runs ends the wait if and only if it is revoked or gives another path or another hash, with the update or the revocation as the reason. |
| Supervisor.SuperviseOne | src/plugin/supervisor.rs:264-334 | For all launches, polls, exits and shutdowns: each turn launches the manifest in force, as the waits of the turns before left it, and waits as called for: the k-th failure in a row since the last reset waits min(2^k, 60) seconds, a process that lasted 300 seconds starts again at one. |
| Supervisor.TurnAt | src/plugin/supervisor.rs:264-334 | Every turn of a run is the one called for by the lives before it. |
| Supervisor.NoTurnAfterShutdown | src/plugin/supervisor.rs:269-334 | A turn that is followed by another had no shutdown at its head, at its exit or in its sleep. |
| Supervisor.FailuresInARow | src/plugin/supervisor.rs:285-317 | From any point of any run, n failures without a break add n to the count, so the waits go on doubling from there. |
| Supervisor.CountStarts | src/plugin/supervisor.rs:307-327 | The count such a streak starts from: zero at the start of the thread and after an update, one after a process that lasted. |
| Supervisor.StreakWaits | src/plugin/supervisor.rs:279-317 | In any run, the n-th failure of a streak, counted from its start, sets out to wait 2^n seconds for n below six and 60 from there on. |
| Supervisor.LaunchesWhatWasSeen | src/plugin/supervisor.rs:350-453 | In every run of a thread started with a manifest that is not revoked, the manifest in force is not revoked and names the binary that the file asked for at the last look. |
| Supervisor.OutdatedExactlyWhen | src/plugin/supervisor.rs:269-334 | A launch is of a plugin revoked or removed on disk if and only if it was so changed since the last look, and of another binary than the file asks for if and only if it was updated since. |
| Supervisor.SeenWithdrawnIsOver | src/plugin/supervisor.rs:385-397 | A look that finds the plugin revoked or removed kills it and ends its thread. |
| Supervisor.FailingTakesNoLook | src/plugin/supervisor.rs:279-289 | However many launches fail, none of them looks at the file. |
| Supervisor.RevokedIsLaunchedAgain | src/plugin/manifest.rs:74-75 | A run in which a plugin revoked after its first failed start is launched k more times, for every k: the promise fails. |
| Supervisor.RemovedIsLaunchedAgain | src/plugin/supervisor.rs:299-317 | A run in which a plugin removed around a crash is launched once more. |
| Supervisor.NoneIsLaunchedTwice | src/plugin/supervisor.rs:133-244 | In every run with threads ending at any time, each supervised id has exactly one reservation or thread and no other id has any. |
| Supervisor.ScanLaunchesAll | src/plugin/supervisor.rs:193-242 | A finished scan has launched, each once, the plugins it chose. |
| Supervisor.ReleasedCanReturn | src/plugin/supervisor.rs:226-236 | The exit of a thread frees its id: nothing owns it any more, and a scan that filters then chooses it if and only if it is eligible. |
| Supervisor.Launcher.ScanAndSpawn | src/plugin/supervisor.rs:178-244 | One undisturbed scan adds exactly the eligible plugins that were not supervised, each once, to set and thread list. |
| Entities.DecodeOfEscape | src/plugin/server.rs:960-969 | Decoding an escaped text gives the text with the four entities it spells out decoded as well. |
| Entities.DecodeUndoesEscapeIf | src/plugin/server.rs:960-969 | Decoding undoes escaping if and only if the text spells out none of `&lt;` `&gt;` `&quot;` `&apos;`. |
| Entities.EntityTextIsLost | src/plugin/server.rs:964 | The text `&lt;`, escaped and decoded, comes back as `<`. |
| XmlFields.FindsFirst | src/plugin/server.rs:926-944 | A pattern whose first character does not return in it is found where it stands, whatever precedes it. |
| XmlFields.NormalizeIsStable | src/plugin/server.rs:953-958 | Normalised names are fixed points and hold no blank and no capital. |
| XmlFields.NormalizedChars | src/plugin/server.rs:953-958 | A blank becomes an underscore, a capital its own small letter, and every other character stays. |
| XmlFields.ScanDataFields | src/plugin/server.rs:922-950 | The loop terminates on every text and collects exactly the fields of the round-by-round scan. |
| XmlFields.ScanUndoesRender | src/plugin/server.rs:922-950 | For any elements in either quote style with any filler without the opening tag, the scan returns the normalised names and trimmed, decoded values in order, blank ones left out. |
| XmlFields.UnquotedIsSkipped | src/plugin/server.rs:926-934 | An opening without a quoted name is skipped and the scan goes on behind it. |
| XmlFields.CutOffEndsTheScan | src/plugin/server.rs:935-941 | An element cut off in its name, its tag or its value gives no field and ends the scan. |
| XmlFields.PlainValueComesBack | src/plugin/server.rs:941-948 | A value without ampersand comes back as it is, whatever white space surrounds it. |
| XmlFields.EscapedValueComesBack | src/plugin/server.rs:941-948 | An escaped value comes back if and only if it spells out no entity. |
| XmlFields.EventIdComesBack | src/plugin/server.rs:909-914 | The first event id below 2^32 is found whatever the attributes and white space around it. |
| XmlFields.ParsesExactlyWhen | src/plugin/server.rs:913 | A text parses as an id if and only if it is digits, with or without a plus sign, of a number below 2^32. |
| XmlFields.EnrichWithXmlDataFields | src/plugin/server.rs:882-906 | No key of the payload changes; the event id found is added unless there is one; every field under a new name is added, the first of each name; nothing else is. |
| Services.EnumerateServices | src/polling/services.rs:340-397 | The loop builds the snapshot in which the last entry of a name counts and entries without a name do not. |
| Services.SnapshotIsCurrent | src/polling/services.rs:351-394 | Exactly the listed services, with the flag and display name they are listed with. |
| Services.ConfigInCycle | src/polling/services.rs:361-380 | A listed service has the answer of this cycle's query as its config if everything is rescanned, it is new, it has started or stopped, or it was held without a path; the config it was held with otherwise. |
| Services.ConfigIsFresh | src/polling/services.rs:64-90 | In every run the config of each service is the answer of a cycle that listed the service and queried it, with at most ten successful cycles after it. |
| Services.RescanEveryEleventh | src/polling/services.rs:64-90 | The count that triggers a full rescan is the number of successful cycles modulo eleven. |
| Services.FirstIsBaseline | src/polling/services.rs:59-96 | Before the first successful cycle nothing is known or reported, and that cycle reports nothing if it is to be silent and everything otherwise. |
| Services.FlagsAreCurrent | src/polling/services.rs:351-394 | After a successful cycle flags and display names are those of that cycle. |
| Services.ComputeDiff | src/polling/services.rs:116-168 | In whatever order the maps are walked: an entry is listed if and only if there is that to report, and once, a change of state before any other of its service and deletions last. |
| Services.EmptyDiffMeansEqual | src/polling/services.rs:116-168 | The difference is empty if and only if the snapshots are equal. |
| Services.DiffAndEmit | src/polling/services.rs:170-235 | Each entry goes out with the service as it is, or as it was if it is gone, with the previous state and the name of its start type. |
| Services.ReplayRebuilds | src/polling/services.rs:116-222 | Applying the reports in the order they come to the old snapshot gives the new one. |
| Services.ReportsTrace | src/polling/services.rs:116-168 | The reports take each service from the status it had to the one it has, every report fitting the status before it. |
| Services.Run | src/polling/services.rs:52-103 | Cycle by cycle the loop reports nothing for a failed cycle or the silent baseline and all that changed otherwise. |
| Services.ReplayFollowsTheRun | src/polling/services.rs:52-103 | Over any run, from any moment after the baseline, replaying gives the current snapshot, and starts and stops of a service alternate between creation and deletion. |
| Services.ChangeIsReported | src/polling/services.rs:64-103 | A config that changes after the baseline and stays is reported as modified, from the old to the new, within eleven successful cycles, however many fail in between. |
| Services.FlipIsReported | src/polling/services.rs:361-380 | A change of config that comes with a start or stop is reported in that very cycle, with the start or stop. |
| Base64.B64Decode | src/shipper/secret.rs:67-101 | The loops compute the decoding function: length checked first, then the alphabet, then the bytes of each quad. |
| Base64.AcceptedExactlyWhen | src/shipper/secret.rs:67-88 | A text is taken if and only if, white space aside, it is whole quads over the alphabet; the length is the first thing found wrong. |
| Base64.PackingUndoesSplitting | src/shipper/secret.rs:90-97 | Shifting and or-ing four sextets undoes the split of three bytes. |
| Base64.DecodeUndoesEncode | src/shipper/secret.rs:67-101 | Every text that is an encoding once its white space is gone decodes to the original bytes. |
| Base64.EncodingIsClean | src/shipper/secret.rs:67-101 | Decoding the encoding of any bytes gives them back. |
| Base64.TestVectors | src/shipper/secret.rs:67-101 | The encoding decoded against gives the test vectors of section 10 of RFC 4648. |
| Base64.WhitespaceIsIgnored | src/shipper/secret.rs:68-69 | A space, tab, line feed, form feed or carriage return put in anywhere changes nothing. |
| Base64.ReencodesIfCanonical | src/shipper/secret.rs:76-98 | An accepted text is the encoding of its result if and only if its padding is at the end and covers zero bits. |
| Base64.NotCanonicalAndAccepted | src/shipper/secret.rs:83-92 | A text that is accepted and is not an encoding. |
| TemplateRules.FindCollision | src/control/sync.rs:317-322 | The loop finds the first group that is claimed, if any is. |
| TemplateRules.ParseTemplateRules | src/control/sync.rs:281-339 | Accepted rules and errors are those of the greedy choice, for every parser. |
| TemplateRules.EveryRuleOnce | src/control/sync.rs:290-337 | Accepted rules and errors keep template order, each error with the reason of the verdict at the position of its rule; an enabled rule is one or the other and never both, a disabled one neither. |
| TemplateRules.AcceptedAreDisjoint | src/control/sync.rs:275-280 | No two accepted rules declare the same group, and what is claimed is what they declare. |
| TemplateRules.CollisionMeansTaken | src/control/sync.rs:313-332 | A rule that parses is rejected if and only if an accepted rule before it owns one of its groups, and the error names such a group. |
| TemplateRules.CollisionErrors | src/control/sync.rs:313-332 | The rule at any position has a collision error if and only if it is enabled, not blank, parses, and an accepted rule before it owns one of its groups. |
| TemplateRules.OtherErrors | src/control/sync.rs:296-312 | The rule at any position has the error for a blank source if and only if it is enabled and blank, and the parser's message if and only if it is not blank and does not parse. |
| TemplateRules.RejectedDoesNotMatter | src/control/sync.rs:275-280 | Taking a rejected rule out leaves the accepted rules as they were. |
| TemplateRules.AcceptedStayAccepted | src/control/sync.rs:281-339 | Running again on the accepted rules accepts them all without an error. |

## Left out

- Sealing is one step: the moments in which a `.zst` exists and is still being filled are not modelled (`src/spool/writer.rs:306-311`), nor are the staging file and files that are not batches.
- No bound on how long a line waits in the active file: the age check only runs on a receive time-out (`src/spool/writer.rs:205-240`).
- The bytes a failed write leaves in the active file, and the merging of buffered writes, are not modelled; a failed write loses its line.
- A channel of capacity zero, which hands lines over directly, is modelled as one that takes none.
- Spool.Enabled: takes submitted lines to be non-empty, as callers must end each line with its newline (`src/spool/writer.rs:92`).
- Pipeline.NothingIsLost: asks that no seal reuses the name of a leftover, which is a condition on the clock readings; the exact condition is that of `Pipeline.AccountedExactlyWhen`.
- Sums of file sizes and counters are unbounded numbers; they would have to reach 2^64 to differ.
- Sha256.Hasher.Finalize: states the standard's digest below 2^61 bytes only, because the length field wraps beyond; what it computes there is stated.
- Shipper.Loop.ShipperMain: times are whole milliseconds, as configured (`src/shipper/config.rs:116-117`); sleeping and waking are not modelled.
- Framing.ReadFrame: a script of reads is finite, so an endless run of interruptions is not a behaviour of the model.
- JSON is abstract: `parse` and `encode` are parameters, and round trips ask that one reads what the other writes.
- Session.HandleSession: the event filter, the spool, the detection engine and the session id generator are left out of `emit_event`; a record stands for what it would emit.
- Acceptor.SessionsAreCounted: a worker that panics before its final decrement is not modelled.
- Manifests.OneByteOfStampIsNoticed: changes of several bytes can collide in a 64-bit hash; `Manifests.EditUnnoticedExactlyWhen` and `Manifests.LocalEdit` say exactly when.
- A manifest directory that does not exist loads like an empty listing; the model has no case of its own for it.
- Path comparison is by a lower-case function that is a parameter; non-UTF-8 names and paths are left out.
- Supervisor.SuperviseOne: polling intervals, the grace period at shutdown and the processes themselves are results given to the model; a thread that cannot be spawned panics and is left out.
- Services: the buffer growth and retries of the enumeration call come down to a listing or a failure; a listing that needs no buffer is an empty listing.
- TemplateRules: decoding the template, and the Waza parser, are outside; the parser is a parameter.
- Entities and XmlFields: strings are sequences of characters, which agrees with the byte offsets of the source because every cut is at a character the scanner has matched.
- Win32, BCrypt, WinTrust, ETW and service-manager calls, HTTP, enrolment, heartbeat, configuration merging, the event filter, console and SIEM output, the Waza engine, the commands of `src/control/executor.rs` other than hashing, and `src/polling/tasks.rs`, which has the same difference as services with fewer cases.
