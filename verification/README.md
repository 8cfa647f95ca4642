# VaultKV in Dafny

VaultKV is a replicated key-value store: a C++ engine with a write-ahead log, a memtable, two levels of
sorted-string tables and quorum replication, a Raft-style leader election, and a binary protocol spoken by a
Python gateway. This project models that core in Dafny and proves what it keeps, recovers, preserves and
agrees on. `dafny verify dfyconfig.toml` covers all of it.

## How it is laid out

- **Leader election.** `Raft` holds one node: its handlers as functions on the node's state, and the class
  `RaftNode` whose methods update the fields in place and are proved equal to those functions. `RaftCluster`
  puts any number of nodes on a network that loses and reorders packets and delivers each at most once.
  `ElectionSafety` proves that no term ever has two leaders. The textbook argument does not apply: a heartbeat
  overwrites the receiver's vote inside a term, so a node may vote twice in a term. `SecondVoteIsForLeader`
  shows where the second vote can go, and `ElectionWitness` gives a run where it happens. `ElectionProgress`
  says what single steps bring about and that a node whose requests reach a majority comes to lead.
- **Bytes and checksums.** `Bytes` (little-endian words, byte order of keys, prefixes), `Crc`, `CrcInverse`
  (running the checksum backwards), `CrcDetects` (what it detects), `Crypto` (a cipher is any pair whose
  decryption inverts its encryption; the XOR fallback is proved to be one), `CryptoDetects` (what its tag exposes).
- **Log.** `WalFormat` and `Wal`: the segment as an array that is overwritten in place, and what a rescan
  recovers. `WalRescan`: what it finds when records are appended in front of bytes left from before.
  `WalWitness`: that every record can be lost, and that old records do return. `WalDamage`: which records are
  recovered by their size, and that a rescan stops in front of a damaged one.
- **Tables.** `Tables` (merging by sequence number, sorted tables, prefix ranges), `Bloom`, `SstFormat`,
  `Sstable`, `SstBuilder`, `Leftovers` (the file of a build that failed), `TableFiles`, `MemTable`, `Compaction`.
- **Store.** `Lsm` is the engine as a state machine over log, memtable, L0 and L1, in which flushes and
  compactions may fail. `LsmRefinement` compares every run with a last-write-wins map, `LsmWitness` gives a run
  on which the two differ, `LsmScan` compares prefix scans with reads and `LsmScanWitness` gives runs on which
  those differ. `StorageEngine` is the engine as a class over the log's bytes, the memtable and the table
  files, those of failed builds among them. It records the steps of `Lsm` that its methods make, and its state
  is always the one these lead to. `EngineWitness` gives runs after which its directory cannot be opened.
- **Replication.** `Replication` counts acknowledgements; `ReplicatedStore` follows a leader and its
  followers, each a store of `Lsm`, over whole runs.
- **Protocol.** `Protocol` (framing and the connection buffer), `Codec` (payloads, both ends), `Requests` (from
  the gateway's bytes to the server's commands).

## Where the code does not do what one would expect

- A cluster of one node never has a leader: votes are counted only when a reply arrives
  (`LoneNodeNeverLeads`). With any peer, `MajorityElects` says exactly how many votes it takes.
- Compaction drops every tombstone, so a deleted key comes back when an older L1 table still holds it.
  `CompactionStep` and `EngineRefinesMap` say exactly when, `DeletionComesBack` shows it.
- A prefix scan cuts each table at twice the limit before tombstones are dropped. It can miss a live key
  (`ScanMissesKey`) and return a deleted one (`ScanReturnsDeletedKey`). `ScanIsExactIff` says exactly when it
  does neither, `MergeHasNewest` when it sees the newest version of a key.
- If the table of a flush cannot be written, the drained records are gone until the log is replayed.
  `FlushMemTable` says exactly when, `LostUntilReopen` what that means for a read.
- A flush or compaction that fails after it has opened its file leaves that file unfinished in the directory,
  and no such file ever opens (`LeftoverNeverOpens`). The next open loads every file before it replays the log,
  so it fails, and the log is not replayed, until the file is removed by hand. `Restart` says so of
  every engine's directory, and exactly when it opens if the log is recoverable; `FailedFlushBlocksOpen` and
  `FailedCompactionBlocksOpen` are runs after which it does not. The model reports corruption; the source first
  reserves room for as many index entries as the magic reads as a number, which throws.
- A record whose checksum happens to be zero, or whose body exceeds 128 MiB, is appended but ends the log for
  every later rescan (`LargeRecordIsLost`). Every record has a clock reading at which its checksum is zero
  (`LosingTimestamp`, `AppendCanBeLost`). `RescanRecovers` says exactly what is recovered.
- After a recovery that ended early, the next append leaves the old bytes behind it in place. If it is as long
  as the lost record, the old records behind it are found again (`StaleRecordsReturn`, and `OldRecordReturns`
  for a log where it happens). `AppendRescans` says what a rescan finds in general.
- When a header declares more than 4 MiB, the frames in front of it in the same buffer are dropped
  (`FrameIsDropped`), so what is handled depends on how the stream was split. `ChunkingIsIrrelevant` says
  exactly when it does not.
- A scan result of more than 65535 pairs is encoded with a truncated count (`LongListIsLost`).
  `ScanResultRoundTrip` says exactly when it decodes.

## Model

| member | source | states |
|---|---|---|
| `Raft.RaftNode.constructor` | src/raft.cpp:13-16 | a node starts as a follower of term zero without a vote |
| `Raft.RaftNode.StartElectionLocked` | src/raft.cpp:42-58 | updates the fields in place to the state the cluster proofs use, and asks for votes in the new term |
| `Raft.RaftNode.HandleTick` | src/raft.cpp:66-82 | a node that does not lead campaigns for the next term if and only if more than its timeout has passed, a leader sends a heartbeat if and only if 50 ms have; a clock gone back wraps around; nothing else changes |
| `Raft.RaftNode.HandleRequestVote` | src/raft.cpp:84-107 | the node moves up to a newer term as a follower, grants its vote if and only if the request is not stale, the log not behind and no other candidate has its vote, and replies with its term |
| `Raft.RaftNode.HandleRequestVoteReply` | src/raft.cpp:109-126 | a candidate steps down for a newer term, and leads, with the callback, if and only if a vote granted in its term makes its votes more than half of the cluster |
| `Raft.RaftNode.HandleAppendEntries` | src/raft.cpp:128-135 | a heartbeat that is not stale makes the node a follower of its sender, whose id overwrites its vote; a stale one changes nothing |
| `RaftCluster.MajorityIsStrict` | src/raft.cpp:38-40 | the count a node derives from its peer list is more than half of the cluster |
| `Sets.MajoritiesMeet` | src/raft.cpp:38-40 | two majorities of one cluster share a node |
| `ElectionSafety.CampaignKeeps` | src/raft.cpp:42-58 | starting an election keeps the cluster invariant |
| `ElectionSafety.VoteKeeps` | src/raft.cpp:84-107 | answering a vote request keeps the invariant; the granting reply takes the request's place |
| `ElectionSafety.EarlierGrantsAgree` | src/raft.cpp:98-104 | a node that may vote for a candidate has voted for nobody else in the term, or the candidate already leads it |
| `ElectionSafety.WinnerIsUnopposed` | src/raft.cpp:119-125 | a candidate that reaches the majority has it from distinct nodes, and is the term's leader if there is one |
| `ElectionSafety.CountedReplyKeeps` | src/raft.cpp:119-125 | counting a vote, and winning with it, keeps the invariant |
| `ElectionSafety.BeatArrivalKeeps` | src/raft.cpp:128-135 | a heartbeat moves votes only to the term's leader |
| `ElectionSafety.QuietTickKeeps` | src/raft.cpp:76-81 | heartbeats are sent only by the term's leader |
| `ElectionSafety.StepKeeps` | src/raft.cpp:38-135 | every step of every node, delivery or loss keeps the invariant |
| `ElectionSafety.AtMostOneLeaderPerTerm` | src/raft.cpp:38-135 | Election Safety: over a whole run no two nodes ever lead the same term |
| `ElectionSafety.SecondVoteIsForLeader` | src/raft.cpp:100-133 | if a node votes for two candidates in one term, the second one leads or has led that term |
| `ElectionWitness.NodeVotesTwice` | src/raft.cpp:128-135 | there is a run in which a term gets a leader and a node then votes a second time in it |
| `ElectionProgress.TickActs` | src/raft.cpp:66-82 | over a step of the cluster: when a tick sends vote requests or heartbeats to every peer, and when it does nothing |
| `ElectionProgress.DeliverySpreadsTerm` | src/raft.cpp:84-135 | a delivered request or heartbeat, or a reply to a candidate, brings the receiver at least to its term, as a follower if the term is new; an older one changes nothing |
| `ElectionProgress.VoteIsAnswered` | src/raft.cpp:84-107 | a vote request is answered with the voter's term, and granted if and only if it is not stale, the log not behind and the vote free or already the candidate's |
| `ElectionProgress.ReplyIsCounted` | src/raft.cpp:109-126 | a node becomes leader if and only if it counts a vote of its term that makes its votes more than half of the cluster |
| `ElectionProgress.TermsGrow` | src/raft.cpp:42-135 | terms never go back, and only a reply makes a leader, only a newer term or a heartbeat of its own term unmakes one |
| `ElectionProgress.MajorityElects` | src/raft.cpp:42-126 | from every cluster: a node whose timeout has passed campaigns, and if peers of no newer terms get its requests and it gets their replies, it leads the next term if and only if there is such a peer and these with the node are more than half |
| `ElectionProgress.RunsKeepShape` | src/raft.cpp:38-135 | what that needs of ids, peers and logs holds in every run |
| `ElectionProgress.LoneNodeNeverLeads` | src/raft.cpp:109-126 | in a cluster of one node no run ever makes it a leader |
| `Bytes.LeRoundTrip` | include/vaultkv/util.h:17-31 | reading a written word gives the value truncated to the word |
| `Bytes.LeUnique` | include/vaultkv/util.h:24-31 | every byte string is the encoding of the value read from it |
| `Bytes.LeByte` | include/vaultkv/util.h:17-22 | the i-th byte is the i-th digit of the value to base 256 |
| `Bytes.LessByPosition` | src/sstable.cpp:80-80 | keys are ordered by the first byte in which they differ, taken as a number from 0 to 255, a proper prefix first |
| `Bytes.AppendLe` | include/vaultkv/util.h:17-22 | the loop appends the low bytes, least significant first |
| `Bytes.ReadLe` | include/vaultkv/util.h:24-31 | the loop computes the little-endian value at an offset |
| `Crc.ShiftOfXor` | src/util.cpp:19-19 | one division step is linear over XOR |
| `Crc.EightShiftsAreOneLookup` | src/util.cpp:16-28 | eight division steps are a lookup by the low byte and a shift |
| `Crc.BuildTable` | src/util.cpp:16-22 | every entry of the table is eight division steps of its index |
| `Crc.TableCrc32` | src/util.cpp:12-31 | the table-driven loop computes the bit-at-a-time checksum of every byte string; that it is the one of RFC 1952 follows with `CrcDetects.ResidueIsConstant` |
| `CrcInverse.FoldUndone` | src/util.cpp:26-30 | whatever the data, some register leads to any given register behind it: the division runs backwards |
| `CrcInverse.WordStep` | src/util.cpp:26-30 | feeding four bytes is adding the word they make and 32 division steps |
| `CrcInverse.AnyChecksum` | src/util.cpp:12-31 | in front of any data there are four bytes that give the whole any checksum one likes |
| `CrcDetects.ResidueIsConstant` | src/util.cpp:12-31 | data followed by its checksum always has the checksum 0x2144DF1C, the residue of the polynomial of section 8 of RFC 1952 |
| `CrcDetects.BurstIsDetected` | src/util.cpp:12-31 | strings of one length that differ, and only within 32 consecutive bits, have different checksums |
| `CrcDetects.BytesAreBurst` | src/util.cpp:12-31 | so have strings that differ only within four consecutive bytes |
| `Crypto.FallbackRoundTrip` | src/crypto.cpp:72-89 | decryption inverts encryption under the same additional data and accepts one tag only |
| `Crypto.FallbackIsLawful` | src/crypto.cpp:143-159 | the fallback satisfies the law that the log and the tables rely on |
| `CryptoDetects.TagIsChecksum` | src/crypto.cpp:82-89 | two inputs have the same tag if and only if they have the same checksum |
| `CryptoDetects.ChangedTextIsRefused` | src/crypto.cpp:143-159 | a ciphertext changed within 32 consecutive bits is not decrypted |
| `CryptoDetects.CipherIsStream` | src/crypto.cpp:78-81 | text and ciphertext differ by the key repeated every 32 bytes and the nonce repeated every 12 |
| `CryptoDetects.NonceIsSeed` | src/crypto.cpp:73-77 | two encryptions have the same nonce if and only if they draw the same 64 bits |
| `Crypto.Encrypt` | src/crypto.cpp:72-89 | the loops fill nonce, ciphertext and tag of the specified blob |
| `Crypto.Decrypt` | src/crypto.cpp:143-159 | the loops decrypt, or refuse a wrong tag |
| `WalFormat.FrameRoundTrip` | src/wal.cpp:23-73 | a serialised record parses back to itself if and only if its checksum is not zero and its body is at most 128 MiB |
| `WalFormat.HeaderOfFrame` | src/wal.cpp:208-240 | what the reader finds field by field in a serialised record |
| `WalFormat.RescanRecovers` | src/wal.cpp:242-301 | rescanning an image followed by a tail that does not parse recovers exactly the records before the first unrecoverable one, so all if and only if all are recoverable |
| `WalFormat.ZeroTailStops` | src/wal.cpp:36-41 | the unwritten, zeroed part of a segment reads as the end of the log |
| `Wal.Wal.constructor` | src/wal.cpp:77-78 | a new log is closed and empty |
| `Wal.Wal.Open` | src/wal.cpp:82-121 | finds the end of the log and the last number by scanning; a segment that holds recoverable records is restored as it was after the last append; opening an open log changes nothing |
| `Wal.Wal.FindEndAndLastSeq` | src/wal.cpp:289-301 | the loop finds the end of the parsable records and the number of the last one |
| `Wal.Wal.SerializeRecord` | src/wal.cpp:208-240 | the appended fields and the patched checksum make up the specified frame |
| `Wal.Wal.Append` | src/wal.cpp:159-188 | success if and only if the sizes, the cipher and the room allow it; then one record with the next 64-bit number is written in place over whatever was there, and an image of the history stays one; each failure has its code and changes nothing |
| `Wal.Wal.Replay` | src/wal.cpp:190-206 | yields exactly what a scan of the written part finds, so all appended records in order when all are recoverable, and never more |
| `Wal.AppendKeepsImage` | src/wal.cpp:175-187 | writing a frame behind an image gives the image of one more record, zeros still following |
| `Wal.ImageRescans` | src/wal.cpp:289-301 | rescanning n appended recoverable records finds the sum of their lengths and the number n |
| `Wal.LargeRecordIsLost` | src/wal.cpp:62-65 | a one-byte key with a value of 134217728 bytes is accepted by Append, but no rescan reads it |
| `WalRescan.FrameIsLocal` | src/wal.cpp:23-73 | a record that parses depends on its own bytes only |
| `WalRescan.AppendRescans` | src/wal.cpp:175-187 | a recoverable record appended where a scan ended is found by the next scan, followed by exactly what the bytes behind it held before; an unrecoverable one leaves the scan as it was |
| `WalRescan.StaleRecordsReturn` | src/wal.cpp:289-301 | if the log ended early at a lost record and the next append is as long as that record, a rescan finds what was in front, the new record and then all the old records behind the lost one again |
| `WalWitness.LosingTimestamp` | src/wal.cpp:36-41 | every record has a 32-bit clock reading at which no rescan reads it |
| `WalWitness.KeepingTimestamp` | src/wal.cpp:36-41 | and, unless it is too large, one at which it is recovered |
| `WalWitness.AppendCanBeLost` | src/wal.cpp:159-188 | whatever Append accepts it also accepts at a clock reading at which the record is lost |
| `WalWitness.OldRecordReturns` | src/wal.cpp:289-301 | for any three records, the first as long as the third, there are clock readings at which a log of the first two is recovered as empty and, once the third is appended in their place, the second is found behind it |
| `WalDamage.RecoverableBySize` | src/wal.cpp:36-66 | a record can be recovered if and only if its checksum is not zero and key and value have at most 134217728 bytes together |
| `WalDamage.AcceptsBySize` | src/wal.cpp:159-180 | Append takes a record if and only if the key has at most 65535 bytes, the value at most 4294967295, it encrypts, and 59 bytes more than both fit behind the offset |
| `WalDamage.ModestLogIsRecovered` | src/wal.cpp:289-301 | a log of such recoverable records, zeros behind it, is recovered completely |
| `WalDamage.FrameLayout` | src/wal.cpp:208-240 | at which bytes of a record each field lies |
| `WalDamage.DamageIsDetected` | src/wal.cpp:242-287 | a record that has changed behind its checksum, within 32 consecutive bits and not in its length, is reported as corrupt |
| `WalDamage.ChecksumDamageIsDetected` | src/wal.cpp:242-287 | nor does a record parse whose stored checksum alone has changed |
| `WalDamage.DamagedLogEnds` | src/wal.cpp:289-301 | a rescan finds exactly the records in front of a damaged one, whatever follows it |
| `Tables.MergeFindsWinner` | src/sstable.cpp:69-75 | merging keeps, for exactly the keys that occur, the record with the largest number, the first one on ties |
| `Tables.SortLayer` | src/sstable.cpp:77-80 | the records of a map in strictly ascending key order, none lost or added |
| `Tables.SortedIsUnique` | src/sstable.cpp:77-80 | a map has one sorted table |
| `Tables.PrefixRange` | src/sstable.cpp:315-328 | from the lower bound of a prefix to the first non-match lie all and only the matching records |
| `Bloom.BloomFilter.constructor` | src/sstable.cpp:178-179 | a new filter has no bit set |
| `Bloom.BloomFilter.Add` | src/sstable.cpp:181-188 | sets exactly the key's bits, in range, and every key added before stays covered |
| `Bloom.MightContain` | src/sstable.cpp:190-198 | answers yes if and only if the bit of each of the key's hashes is set, for any hash function and any filter with a byte for every bit |
| `SstFormat.RecordRoundTrip` | src/sstable.cpp:254-302 | a record written at an offset is read back from there, whatever lies around it |
| `SstFormat.IndexRoundTrip` | src/sstable.cpp:218-234 | the written index is read back |
| `SstFormat.FilterRoundTrip` | src/sstable.cpp:236-248 | the written filter is read back bit for bit |
| `SstFormat.HeaderRoundTrip` | src/sstable.cpp:207-216 | the written header is read back |
| `Sstable.Open` | src/sstable.cpp:203-252 | succeeds if and only if header, index and filter can be read, and returns them |
| `Sstable.ForeignFileIsRefused` | src/sstable.cpp:207-212 | a file with another magic or version does not open |
| `Sstable.LowerBound` | src/sstable.cpp:308-310 | binary search splits the index into keys below and not below |
| `Sstable.Get` | src/sstable.cpp:304-313 | not found if the filter or the index excludes the key, else the outcome of the offset read, also a failing one; on an intact table a lookup in its contents |
| `Sstable.ScanPrefix` | src/sstable.cpp:315-328 | the first `limit` readable records among exactly the matching entries, in key order; on an intact table the first `limit` matches |
| `Sstable.AllRecords` | src/sstable.cpp:330-338 | the readable records in index order; on an intact table its whole contents |
| `SstBuilder.SstableBuilder.constructor` | src/sstable.cpp:55-56 | a new builder holds no records |
| `SstBuilder.SstableBuilder.Latest` | src/sstable.cpp:69-75 | the loop keeps the latest version of every key |
| `SstBuilder.EncodeRecord` | src/sstable.cpp:98-120 | fails for a record that does not fit or encrypt, with the right code, and otherwise writes it |
| `SstBuilder.FilterSize` | src/sstable.cpp:139-139 | a filter has ten bits for each key, 64 at least, and seven hashes |
| `SstBuilder.WriteRecords` | src/sstable.cpp:92-125 | succeeds if and only if every record fits and encrypts, else fails with the code of the first that does not; on success the records lie behind the header at the offsets collected in the index, on failure those in front of the failing one have been written |
| `SstBuilder.FillFilter` | src/sstable.cpp:138-140 | the filter covers every indexed key |
| `SstBuilder.WriteIndex` | src/sstable.cpp:127-135 | the loop writes the count and every entry |
| `SstBuilder.Finish` | src/sstable.cpp:127-165 | appends index, filter and footer and rewrites the header with their offsets |
| `SstBuilder.AssembleOpens` | src/sstable.cpp:127-252 | opening the finished file gives back its index and filter |
| `SstBuilder.SstableBuilder.Build` | src/sstable.cpp:62-176 | succeeds if and only if there are records, the latest version of each key fits and encrypts, and the file is small enough and can be written; the file then opens as an intact table of those versions and has the computed size; a failure leaves no file if it could not be opened, else the placeholder and the encoded records as far as writing went; the code is that of the first record that does not encode if writing went that far |
| `Leftovers.PlaceholderNeverOpens` | src/sstable.cpp:203-223 | a file that starts with the placeholder header, whatever follows, or with a part of it does not open: the magic is read as the number of index entries |
| `Leftovers.LeftoverNeverOpens` | src/sstable.cpp:82-167 | so what a failed build leaves never opens, wherever writing stopped |
| `SstBuilder.ReadBack` | src/sstable.cpp:203-313 | looking up a key in a built file finds the added record with the largest number, the first on ties, and fails for exactly the keys never added |
| `MemTable.TotalUpdate` | src/memtable.cpp:14-48 | how one put changes the sum of the entries' estimates, an entry counting its key, its value and 48 bytes |
| `MemTable.MemTable.constructor` | src/memtable.cpp:8-8 | an empty table with a zero counter |
| `MemTable.MemTable.Set` | src/memtable.cpp:14-30 | stores the value, refuses the empty key, and the counter stays the sum of the estimates without underflow |
| `MemTable.MemTable.Delete` | src/memtable.cpp:32-48 | stores a tombstone, with the same accounting |
| `MemTable.MemTable.SnapshotSorted` | src/memtable.cpp:57-69 | in key order all entries, or exactly those that are not tombstones |
| `MemTable.MemTable.DrainSorted` | src/memtable.cpp:71-85 | hands over the entries in key order and leaves nothing |
| `MemTable.MemTable.OverBudget` | src/storage_engine.cpp:148-148 | the flush trigger fires exactly when the entries' estimates reach the budget |
| `TableFiles.BuildTable` | src/storage_engine.cpp:251-260 | succeeds if and only if there are records, all encode, and the file is small enough and can be written; the table then holds exactly them; a failure leaves one file that never opens, none if there was nothing to write or the file could not be opened |
| `TableFiles.ScanTable` | src/storage_engine.cpp:220-220 | a table's cut scan is the cut of its layer |
| `TableFiles.OpenFiles` | src/storage_engine.cpp:98-114 | succeeds if and only if every file of the level opens, and gives their readers in order |
| `TableFiles.HeldFilesOpen` | src/storage_engine.cpp:98-114 | files that hold layers open, as readers that hold those layers |
| `Compaction.MergeTable` | src/compaction.cpp:22-27 | merging a table record by record is merging its layer by sequence number |
| `Compaction.MergeRecords` | src/compaction.cpp:22-27 | the loop that keeps the larger number is that merge |
| `Compaction.LatestByKey` | src/compaction.cpp:17-28 | the latest version of every key over all L0 tables |
| `Compaction.CompactLevel0ToLevel1` | src/compaction.cpp:13-47 | yields a table if and only if there are input tables, a version that is not a tombstone is left and the output can be written; it then holds the newest such version of every key; the failures have their codes; an output that was begun stays as a file that never opens |
| `Lsm.NewestIsMaxSeq` | src/storage_engine.cpp:174-192 | the first layer, newest first, that holds a key holds its largest number |
| `Lsm.MergeIsFind` | src/storage_engine.cpp:174-234 | merging tables by number finds what looking from the newest on finds |
| `LsmRefinement.StepKeeps` | src/storage_engine.cpp:132-291 | every write, flush, failed flush, compaction and reopen keeps the invariant of the layers |
| `LsmRefinement.RunKeeps` | src/storage_engine.cpp:132-291 | so it holds after every run |
| `LsmRefinement.ReadsFindMaxSeq` | src/storage_engine.cpp:170-195 | in every reachable state a read finds the largest number any layer holds for the key |
| `LsmRefinement.CompactionStep` | src/storage_engine.cpp:264-291 | compaction leaves a key's read unchanged if and only if it is not a deletion in L0 over a version in L1; then that version comes back; an all-tombstone merge changes nothing |
| `LsmRefinement.EngineRefinesMap` | src/storage_engine.cpp:132-291 | after every run, with or without failing writes of files, a read equals the last applied write of the key if and only if no compaction has dropped its deletion and no failed flush has lost it since |
| `LsmRefinement.ForgottenIsRevived` | src/storage_engine.cpp:132-291 | in a run without lost flushes a write is forgotten if and only if some compaction since, and since the last reopen, dropped the deletion of the key while L1 still held it |
| `LsmWitness.DeletionComesBack` | src/compaction.cpp:32-35 | a run of eight writes, each flushed, after which a deleted key reads as its old value |
| `LsmRefinement.LiveSurvivesFlush` | src/storage_engine.cpp:246-291 | flushing and compacting never change a key that reads as a value |
| `LsmRefinement.AppliedSetIsVisible` | src/storage_engine.cpp:132-153 | an applied Set is read back at once, also after a flush and compaction right behind it |
| `LsmRefinement.OtherWriteKeeps` | src/storage_engine.cpp:132-168 | a write leaves the values of other keys alone |
| `LsmRefinement.RecoveryReadsLog` | src/storage_engine.cpp:76-82 | after a reopen a logged key reads as its last log record, whatever the tables hold |
| `LsmRefinement.RecoveredReads` | src/storage_engine.cpp:40-82 | from any state with the invariant, a reopen makes reads and the log agree on every key |
| `LsmRefinement.RecoveryIsTheLog` | src/storage_engine.cpp:40-82 | after any run and reopen every key reads as its last log record, and one never logged is absent |
| `LsmRefinement.LostUntilReopen` | src/storage_engine.cpp:246-257 | a key that only the memtable holds reads as absent after a flush that loses the memtable, and as before once the log is replayed; with an unfinished file in the way that takes removing it first, see `StorageEngine.Restart` |
| `LsmRefinement.UnacknowledgedWrite` | src/storage_engine.cpp:140-143 | a write that misses its quorum is invisible until a reopen and current after it, other keys unaffected |
| `LsmRefinement.NewWritesAreLarger` | src/wal.cpp:165-167 | a new record carries a larger number than anything in the log or the layers |
| `LsmScan.ExactScanIsReads` | src/storage_engine.cpp:197-244 | the reference scan takes its first pairs from exactly those that reads return for the prefix, in key order |
| `LsmScan.ExactScanIsFirst` | src/storage_engine.cpp:197-244 | it has as many pairs as there are matching keys with a value, or `limit` if that is less, 100 if the limit is zero; its keys ascend in unsigned byte order, and a matching key left out comes behind all of them |
| `LsmScan.EarlyKeySurvives` | src/storage_engine.cpp:218-234 | a key among the first n current ones is never cut from a layer that has it |
| `LsmScan.MergeDownIsFind` | src/storage_engine.cpp:210-234 | merging an ordered stack of layers by number finds what looking from the newest on finds |
| `LsmScan.ScanMergedIsFind` | src/storage_engine.cpp:208-234 | what the scan merges is what a read would find if every table held only its first matches |
| `LsmScan.MergeHasNewest` | src/storage_engine.cpp:208-234 | the merge has the newest version of a key if and only if the memtable holds it or some table that holds it does not cut it off |
| `LsmScan.MergedTableStartsAlike` | src/storage_engine.cpp:208-234 | the merged map starts with the first n current records, and is all of them if there are no more |
| `LsmScan.ScanIsExact` | src/storage_engine.cpp:197-244 | the scan returns exactly the first `limit` live keys with the values reads return, if the first 2 * limit current keys hold that many or are all |
| `LsmScan.ScanIsExactWithFewTombstones` | src/storage_engine.cpp:197-244 | in every reachable state, in particular when at most `limit` matching keys are deleted |
| `LsmScan.ScanIsExactIff` | src/storage_engine.cpp:197-244 | on every store the scan is exact if and only if each key in its reach is shown by the cut layers as a read shows it |
| `LsmScan.ShownAlikeByPlace` | src/storage_engine.cpp:208-234 | a key is shown alike if and only if it has no version, a layer with its newest version keeps it, its newest version is a deletion and the topmost layer that keeps it, if any, keeps a deletion, or that layer keeps an equal value |
| `LsmScan.SingleTableScan` | src/storage_engine.cpp:219-242 | on a single L0 table the scan is exact if and only if the cut keeps enough live keys or none lie behind it |
| `LsmScanWitness.ScanMissesKey` | src/storage_engine.cpp:219-242 | a run of three writes and a flush after which a scan with limit one returns nothing though a key with a value matches |
| `LsmScanWitness.ScanReturnsDeletedKey` | src/storage_engine.cpp:219-242 | a run of seven writes, four of them flushed one by one and the rest together, after which a scan with limit one returns a deleted key with its old value |
| `StorageEngine.Engine.constructor` | src/storage_engine.cpp:29-36 | a new engine is closed, with no tables and an empty memtable |
| `StorageEngine.Engine.FindInTables` | src/storage_engine.cpp:181-192 | the loop over a level's tables finds the newest version there |
| `StorageEngine.Engine.Get` | src/storage_engine.cpp:170-195 | reads the newest version over real files, with every error case; it agrees with the last applied write of the key if and only if the recorded steps have not forgotten it |
| `StorageEngine.Engine.MergeScans` | src/storage_engine.cpp:219-234 | the loops merge the cut scans of a level, newest table first |
| `StorageEngine.CollectLive` | src/storage_engine.cpp:236-242 | the first `limit` live entries |
| `StorageEngine.Engine.ScanPrefix` | src/storage_engine.cpp:197-244 | returns the merged scan of the store; that is the exact one if and only if the cut layers show each key in reach as a read does, in particular under the condition of `ScanIsExact` |
| `StorageEngine.Engine.MaybeCompact` | src/storage_engine.cpp:264-291 | on an open or closed engine: fails, without effect on the layers, if and only if there is something to compact and only tombstones are left or the table cannot be written; else makes and records the compaction step; one unfinished file is left if and only if an output was begun and not finished |
| `StorageEngine.Engine.FlushMemTable` | src/storage_engine.cpp:246-262 | loses the drained records, and reports an error, if and only if there are any and their table cannot be encoded or written; keeps them but reports an error if and only if the compaction fails; else makes the flush step; either failure leaves one unfinished file in its level if and only if the file was begun |
| `StorageEngine.Engine.LogAndReplicate` | src/storage_engine.cpp:136-143 | logs if and only if the log accepts, succeeds if and only if the quorum is reached too |
| `StorageEngine.QuorumIsReached` | src/storage_engine.cpp:139-143 | with replication on, the quorum is reached if and only if the leader and the acknowledging peers are that many; without, always |
| `StorageEngine.Engine.Set` | src/storage_engine.cpp:132-153 | makes exactly the step of a refused, logged-only or applied write, each under its condition, and at the budget that of a flush; succeeds if and only if the write is applied and the flush goes through; leaves an unfinished file exactly when that flush does |
| `StorageEngine.Engine.Delete` | src/storage_engine.cpp:155-168 | makes exactly the step of a write of a tombstone; never flushes |
| `StorageEngine.Engine.ReplayWal` | src/storage_engine.cpp:76-82 | fails if and only if some Set or Delete in the log has no key, else folds the records found into the memtable |
| `StorageEngine.ReplayByOperation` | src/storage_engine.cpp:76-82 | a record with operation byte 0 sets, with 1 deletes, and any other is skipped |
| `StorageEngine.Engine.LoadTables` | src/storage_engine.cpp:84-115 | succeeds if and only if every file opens, then with their readers in order and, for the files of a store, its layers |
| `StorageEngine.Engine.Open` | src/storage_engine.cpp:40-60 | succeeds if and only if all table files open and every write found in the log has a key, and fails with corruption if some file does not open; on the files of a store it gives the store as reopened, with every key reading as its last log record; opening an open engine changes nothing |
| `StorageEngine.ClosedEngineIsStored` | src/storage_engine.cpp:40-68 | the log and the tables of an engine with a recoverable log, without unfinished files, are files of the store its steps lead to, so opening another engine on them recovers it |
| `StorageEngine.Restart` | src/storage_engine.cpp:40-68 | opening a new engine on the directories of another fails with corruption if any file of a failed build is still among them, whatever the log holds; if none is and the log is recoverable it succeeds and gives the store as reopened, every key reading as its last log record |
| `StorageEngine.Start` | src/storage_engine.cpp:40-60 | opening on an empty directory succeeds, with any lawful cipher, and gives the empty store |
| `EngineWitness.FailedFlushBlocksOpen` | src/storage_engine.cpp:246-257 | a write whose flush fails to encrypt returns an error and reads as absent, and the directory then does not open |
| `EngineWitness.FailedCompactionBlocksOpen` | src/storage_engine.cpp:264-279 | four flushed writes, the compaction behind the last failing to encrypt: the write returns an error but is read, and the directory then does not open |
| `Replication.ReplicateToQuorum` | src/replication.cpp:146-176 | succeeds if and only if the leader and the peers that acknowledge in time reach the quorum, and returns that count; a quorum of zero or one is always reached |
| `Replication.LateAnswersAreIgnored` | src/replication.cpp:164-173 | answers of peers looked at after the deadline make no difference |
| `ReplicatedStore.InternalKeeps` | src/storage_engine.cpp:246-291 | flushes, compactions and reopens of any node keep every acknowledged value at a quorum |
| `ReplicatedStore.WriteKeeps` | src/storage_engine.cpp:136-153 | so does a write, acknowledged or not, partly delivered or repeatedly |
| `ReplicatedStore.AckedSetHasHolders` | src/replication.cpp:146-176 | after an acknowledged Set the leader and its acknowledging followers have the value |
| `ReplicatedStore.AckedSetSurvives` | src/replication.cpp:146-176 | if the leader's latest attempt on a key was an acknowledged Set, at least the quorum read its value, and one still does after losing any fewer nodes |
| `Protocol.ParseConserves` | src/protocol.cpp:33-68 | the buffer is the re-encoded frames followed by the rest, and the rest holds no complete frame |
| `Protocol.FramesRoundTrip` | src/protocol.cpp:16-68 | encoded frames of at most 4 MiB are parsed back in front of whatever follows |
| `Protocol.EncodedFramesParse` | src/protocol.cpp:16-68 | encoded frames alone are parsed back with nothing left |
| `Protocol.ParseContinues` | src/protocol.cpp:33-68 | parsing more bytes continues where parsing the first ones stopped |
| `Protocol.ChunkingIsIrrelevant` | src/server.cpp:125-155 | every split of a stream is handled alike if and only if no oversized header comes behind a complete frame |
| `Protocol.FrameIsDropped` | src/server.cpp:145-155 | a complete frame followed by an oversized header is handled when it comes in its own chunk and dropped when it does not |
| `Protocol.TryParseFrames` | src/protocol.cpp:33-68 | the loop appends the complete frames and erases them, or leaves the buffer at an oversized header |
| `Protocol.Connection.constructor` | src/server.cpp:123-125 | a connection starts with nothing handled and an empty buffer |
| `Protocol.Connection.Receive` | src/server.cpp:125-155 | receiving a chunk is one feeding step of the stream |
| `Codec.CommandRoundTrip` | gateway/tlv_client.py:18-31 | the server decodes what the gateway encodes, for all sizes that fit |
| `Codec.CommandIsUnique` | src/protocol.cpp:70-144 | an accepted SET, GET or DEL payload is the encoding of its fields; a SCAN payload may carry ignored bytes |
| `Codec.ScanResultRoundTrip` | src/protocol.cpp:172-183 | an encoded scan result decodes, on either end, if and only if its length fits two bytes |
| `Codec.LongListIsLost` | src/protocol.cpp:172-183 | a list of 65536 pairs comes back empty at the gateway and is refused by the decoder of the server |
| `Codec.GatherAgrees` | gateway/tlv_client.py:66-82 | the gateway reads what the server reads where the server reads every announced pair, and fewer pairs than announced where it does not |
| `Codec.ScanResultIsUnique` | src/protocol.cpp:213-256 | what the decoder of the server accepts is the encoding of its result, and the gateway reads the same |
| `Codec.EncodeScanResultPayload` | src/protocol.cpp:172-183 | the loop appends the count and every pair |
| `Codec.DecodeScanResultPayload` | src/protocol.cpp:213-256 | the loop accepts exactly complete payloads without trailing bytes |
| `Codec.ParseScanResultPayload` | gateway/tlv_client.py:59-82 | the loop keeps the pairs in front of the first one cut short |
| `Requests.RequestsAreHandled` | gateway/cluster.py:82-82 | in whatever chunks the gateway's requests arrive, the server hands on one frame for each, in order, that decodes to the command sent, and its buffer ends empty |
| `Requests.ReceiveRequest` | src/server.cpp:125-155 | one request on a connection with an empty buffer becomes one frame that decodes to its command |
| `Requests.FrameWithinLimit` | src/protocol.cpp:33-68 | a frame with a payload of at most 4194304 bytes is handed on |
| `Requests.FrameOverLimit` | src/protocol.cpp:47-50 | a header that declares 4194305 bytes or more blocks the connection for good |
| `Requests.GetOnTheWire` | gateway/cluster.py:82-82 | the nine bytes of a GET for "k" |
| `Requests.SetOnTheWire` | gateway/tlv_client.py:18-21 | the fourteen bytes of a SET of "k" to "v" |
| `Requests.ScanResultOnTheWire` | src/protocol.cpp:172-183 | the ten bytes of a scan result with that pair |
| `Requests.OtherOperations` | src/protocol.cpp:79-142 | a PING may carry anything, and operations other than 1 to 5 are refused |
| `Requests.ScanWithoutLimit` | src/protocol.cpp:122-140 | a SCAN with limit zero means 100, and bytes behind the limit are ignored |

## Left out

- The OpenSSL branches of the cipher: any cipher that satisfies the law of `Crypto.Lawful` is allowed, and only the fallback is modelled concretely.
- Sockets, epoll, memory mapping, msync and the file system: buffers and files are byte sequences, and whether a file can be written is an input.
- Wall-clock time, random timeouts and nonces, mutexes and threads inside one node: readings are inputs, calls are sequential.
- Crashes in the middle of an operation: a reopen happens between operations, with the log intact. Failing to remove compacted L0 files, and readers left behind by a failed open, are not modelled either.
- TableFiles.BuildTable: when encoding and writing both fail, which of the two codes is reported is left to `SstBuilder.SstableBuilder.Build`; the same holds for `Compaction.CompactLevel0ToLevel1`.
- SstBuilder.SstableBuilder.Build: writing stops after some bytes of the stream or not at all, and the final header reaches the file only when all else has; a write error that is reported although every byte arrived, so that a finished file stays, is not modelled.
- Leftovers.LeftoverNeverOpens: the exception that the source throws while it reserves room for the index is modelled as the error that reading the entries would give.
- Closing an engine and opening the same object again, with its memtable still filled.
- Raft log replication, persistence, restarts and wrap-around of 64-bit terms: the source has no log and persists nothing, so only election is modelled, with terms unbounded.
- The hash function of the Bloom filter: results hold for any function.
- Padding in the table header and footer structures, and the footer itself, which no reader looks at: a fixed field layout is used.
- The smallest and largest sequence numbers that Build reports in its metadata.
- The order of table files on disk: file-name order is taken to be creation order, and every new file is taken to have a new name. Unfinished files may lie anywhere among the tables.
- The size of an entry in memory is the constant 48, its value on common 64-bit platforms.
- Wrap-around of `2 * limit` and of offsets: sizes are unbounded integers, and files of 2^64 bytes or more count as failed writes.
- Replay hands the records to a callback; here it returns them, and the engine applies them in a loop.
- WalDamage.DamageIsDetected: damage to the length field, and damage spread over more than 32 bits, may go undetected by any checksum of 32 bits and is not characterised.
- ElectionProgress.MajorityElects: requests and replies are delivered voter by voter, all at one clock reading; other orders are not stated.
- WalFormat.RescanRecovers: assumes that every ciphertext is shorter than 4 GiB, because the length field of a longer one is truncated; recoverable records always satisfy this.
- Bloom.MightContain: assumes a byte for every bit; for a damaged filter with fewer bytes the source reads out of bounds.
- Sstable.Get: assumes that the index is sorted, as binary search does; so does `Sstable.ScanPrefix`.
- ReplicatedStore.AckedSetSurvives: a request that timed out is applied before the next write or never, followers are written by the leader only, no node loses its memtable to a failed flush, and no unfinished file keeps a node from reopening.
- Status messages, HandleFrame, and the ack, error and value payloads: straight-line code that would only add easy members.
- Text encoding in the gateway, its leader choice and metrics, and everything under frontend, scripts, deploy, tools and bench.
