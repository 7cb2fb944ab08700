# Cellframe SDK core: a Dafny model

The project models three parts of the SDK and proves what they promise.

**GlobalDB replication.** A replicated key/value store. Every record carries a driver hash, the pair
(timestamp, checksum) in big-endian bytes; for each key the record with the largest hash wins and
deletions stay as tombstones. `Packet`, `PacketPack` and `Envelope` are the wire format and the signing
envelope, `MdbxTable` and `MdbxDriver` the hash-ordered table that is also searched by text key,
`StoredTransport` the way of a stored row back onto the wire, `GlobalDb` the acceptance rule and the local
operations, `Sweep` the removal of expired records, `SyncReader` and `SyncProtocol` the steps of the
synchronisation channel. The theorems about whole runs are in `Consistency` (read your write),
`NoResurrection` and `Merging` (order independence, and what becomes of a pack of records). `Channel` is the system of
readers and packets between two nodes, delivered in any order; `Convergence` says what a pull brings and when two
pulls make two nodes equal, `Session` what a START packet leads to while the tables of both nodes change.

**Reactor and scheduler.** `PtrQueue` is the cross-thread pointer queue (pipe, overflow buffer, drain
thread), `ProcThread` the priority queue of callbacks, `PollTable` the poll array with back-indices and
in-place compression, `OutBuffer` the elastic output buffer. Each is a step system over critical sections,
with a class whose methods work in place and are proved to take exactly those steps.

**json-c and strptime.** `JsonTree` compares and copies trees, `JsonPointer` follows RFC 6901 pointers with
tokens decoded in place, `JsonEscape` writes JSON strings, `Strptime` parses dates.

Conventions. Byte strings are `seq<byte>`; fixed widths and wrap-around are written out where they matter
(`% TWO_TO_64` in expiry arithmetic, 32-bit packet sizes, division that truncates in `Strptime`). crc64,
signing, verification and key addresses are the function fields of `Envelope.Crypto`, which is only known to
verify what it signed. Clocks, the
answers of the kernel (what a `write` or `read` moved, whether a thread could be started) and random starts
are parameters. Where the code and a comment disagree the model follows the code:
`dap_events_socket_insert_buf_out` returns the number of bytes inserted and not 0.

Transactions. A list of several records is written between `dap_global_db_driver_txn_start` and
`dap_global_db_driver_txn_end`, which would undo it if its last record fails (`global-db/dap_global_db.c:1104-1114`).
Both do nothing when the driver's interface table has no transaction callbacks
(`global-db/dap_global_db_driver.c:489-503`). The MDBX driver fills the two callbacks in and then sets them to NULL
(`global-db/dap_global_db_driver_mdbx.c:440-448`), so its lists are never undone. The model covers both settings: the
flag `transactions` of a node says whether its driver has the callbacks, and the theorems are stated for either value
or say for which one they hold.

Properties that do not hold in general are stated with their exact condition, so that the reader sees both
sides: `StoredTransport.UnpackRowsIff` and `Convergence.LongGroupNeverSyncs` (group names of the full 128
characters cannot be pulled), `MdbxTable.StoreRefinesIff` and `Consistency.StoredIsFoundIff` (keys above 511
bytes and records without value and signature are not found again), `Merging.TwoRecordsCommuteIff`,
`Sweep.SweepEndsIff`, `SyncReader.RunReader` (when a GROUP_REQUEST is sent), `Session.SessionEqualIff` (a session
makes both tables equal exactly when that request was sent or nothing was missing), `Merging.PackJoinsIff`,
`Convergence.PullMergesIff` and `Convergence.TwoPullsConvergeIff` (with transactions, a page with news for the puller is
lost exactly when several of its rows were requested and the last of them is no news), `PacketPack.AppendWholeIff`, `PollTable.AddKeepsInvIff`,
`ProcThread.GetAuto` and `JsonPointer.IndexIff` (the empty token reads as index 0).

`NoResurrection.RunIsSafe` needs assumptions on the run. `NoResurrection.ReturnsIff` is the exact counterpart for a
single event: it says for every stored row and every application or sweep whether an older record of the row's
key is taken afterwards. From it follow the conditions for records that the key scan cannot find
(`UnfindableReturnsIff`, `LongKeyIsAlwaysStored`), for the sweep of local tombstones (`LocalSweepReturnsIff`) and
for a clock that goes back (`ClockBackIff`); a hash that is met again and a key that is cut to another one are cases
of `ReturnsIff` itself. The assumptions on flags (records offered without ERASE and PINNED) and on timestamps near
2^64 have no such counterpart.

## Model

| member | source | states |
|---|---|---|
| DriverHash.CompareIsLexicographic | global-db/include/dap_global_db_driver.h:57-106 | memcmp on the big-endian encoding is the lexicographic order on (timestamp, checksum) |
| DriverHash.MemcmpBE | global-db/include/dap_global_db_driver.h:85-106 | big-endian numbers of one width compare like the numbers, then like what follows them |
| Packet.ReadWrittenHead | global-db/dap_global_db_pkt.c:58-87 | a packed header is read back field by field, whatever follows it |
| Packet.WriteReadHead | global-db/include/dap_global_db_pkt.h:30-46 | every 29 header bytes are the image of exactly the fields read from them |
| Packet.FillRawPacket | global-db/dap_global_db_pkt.c:148-209 | a packet with lengths in range is taken apart into its fields, with group and key cut at a NUL and flags reduced to DEL, and the cursor stops at its end |
| Packet.FillSerialized | global-db/dap_global_db_pkt.c:58-87 | deserialising a serialised record returns it with flags reduced to DEL and consumes exactly the packet, for every record whose data length fits its 32-bit field |
| Packet.FillConsumesPacket | global-db/dap_global_db_pkt.c:148-209 | whatever bytes are accepted, the part consumed is a packet of exactly the fields delivered |
| Packet.OverrunIff | global-db/dap_global_db_pkt.c:148-209 | a packet passes the length checks but runs over the bytes given exactly when its header is in order and its length wraps the 32-bit size to 0 |
| Packet.WellSizedMeans | crypto/src/dap_sign.c:514-521 | a signature is accepted exactly when its type is not null and it is as long as its header and the two lengths in it say |
| Packet.FlagBits | global-db/include/dap_global_db_driver.h:50-56 | DEL, PINNED, NEW and ERASE are independent bits; sending keeps DEL, storing clears NEW |
| PacketPack.AppendWholeIff | global-db/dap_global_db_pkt.c:39-51 | appending a serialised record grows the count by one, and the data by the whole packet exactly when the packet with its header fits 32 bits; otherwise the data stays as it is |
| PacketPack.PackDeserialize | global-db/dap_global_db_pkt.c:232-292 | the cursor loop delivers the longest readable prefix, or rejects the pack, as the recursive reading does |
| PacketPack.RejectedIff | global-db/dap_global_db_pkt.c:232-291 | a pack is rejected exactly when it is shorter than a header, its count is not within 1 to 1024, or its first packet is broken |
| PacketPack.UnpackUpTo | global-db/dap_global_db_pkt.c:263-291 | behind any number of good packets, a broken one ends the reading and the good ones are delivered, in order |
| PacketPack.ParseConcat | global-db/dap_global_db_pkt.c:263-291 | packets that read back one by one read back from their concatenation, in order, with nothing consumed beyond |
| PacketPack.PackRoundTrip | global-db/dap_global_db_pkt.c:39-87 | packing and unpacking any records that can be appended whole returns them in order with flags reduced to DEL and the cursor at the end of the data |
| Envelope.CheckMeans | global-db/dap_global_db_pkt.c:124-146 | the check accepts exactly when the signature covers the unsigned body and the checksum the signed one, although the length field is rewritten on the way |
| Envelope.AppendSign | global-db/dap_global_db_pkt.c:89-122 | patching the length and appending the signature gives the packet of the signed record |
| Envelope.CutSign | global-db/dap_global_db_pkt.c:124-146 | the bytes behind the value are the signature, and the shortened packet covers the unsigned body |
| Envelope.SignMeans | global-db/dap_global_db_pkt.c:89-122 | signing an unsigned record yields the signature of its body, or none without a key, and the checksum of the signed body |
| Envelope.SignedIsAuthored | global-db/dap_global_db_pkt.c:89-122 | filling in what signing yields makes a record authored under that key, although the checksum is filled in last |
| Envelope.CheckIgnoresLocalFlags | global-db/dap_global_db_pkt.c:124-146 | flags other than DEL do not change the answer of the check |
| Envelope.AuthoredChecks | global-db/dap_global_db_pkt.c:89-146 | every record signed and checksummed here passes the check |
| Envelope.GossipChecks | global-db/dap_global_db_pkt.c:58-209 | it still does after serialisation and deserialisation |
| MdbxTable.StoreMeans | global-db/dap_global_db_driver_mdbx.c:1108-1148 | storing adds the row and removes the one previously found under its key, and changes no other row |
| MdbxTable.StoreRefinesIff | global-db/dap_global_db_driver_mdbx.c:1074-1169 | the table keeps refining the key-to-record map after a store exactly when the record can be found by its key and its hash is not another key's |
| MdbxTable.EraseRefines | global-db/dap_global_db_driver_mdbx.c:1149-1165 | erasing by hash refines removal from the map |
| MdbxTable.RunRefines | global-db/dap_global_db_driver_mdbx.c:1074-1169 | any run of stores and erases keeps table and map in agreement |
| MdbxTable.RefinedLookups | global-db/dap_global_db_driver_mdbx.c:567-593 | then text-key lookup is map lookup, hash lookup is membership in the map's hashes, and no key has two rows |
| MdbxDriver.Driver.FindByTextKey | global-db/dap_global_db_driver_mdbx.c:567-593 | the cursor scan returns the first row with a value or signature and this key, or none |
| MdbxDriver.Driver.Apply | global-db/dap_global_db_driver.c:265-308 | one record is stored or erased as the specification says, with its return code, and the driver's invariant is kept |
| MdbxDriver.WriteCode | global-db/dap_global_db_driver.c:283-293 | the code of a write names the first condition that fails: unprintable text, a missing checksum or key, a new group with a long name; a failed write changes nothing |
| MdbxDriver.EraseMeans | global-db/dap_global_db_driver_mdbx.c:1149-1165 | an erasure removes exactly the row with the hash or, without a time, the row found under the key, and succeeds exactly when there is one |
| MdbxDriver.Driver.constructor | global-db/dap_global_db_driver_mdbx.c:424-451 | the MDBX driver starts with empty tables and without transaction callbacks |
| MdbxDriver.Driver.TxnStart | global-db/dap_global_db_driver_mdbx.c:1370-1379 | without callbacks nothing happens and -1 is returned; with them the present tables are kept to go back to, unless a transaction is open |
| MdbxDriver.Driver.TxnEnd | global-db/dap_global_db_driver_mdbx.c:1381-1393 | without callbacks the tables stay; with them an open transaction is closed, and the tables go back unless it is committed |
| MdbxDriver.Driver.ApplyAll | global-db/dap_global_db_driver.c:265-308 | a list of records is applied in order up to the first failure, whose code is returned; -1 for an empty list |
| MdbxDriver.Driver.Drop | global-db/dap_global_db_driver_mdbx.c:1171-1222 | a deletion without key removes the group's table and leaves the other groups alone |
| MdbxDriver.Driver.Read | global-db/dap_global_db_driver_mdbx.c:1256-1297 | reading a key returns the record of the row found |
| MdbxDriver.Driver.IsHash | global-db/dap_global_db_driver_mdbx.c:727-752 | the cursor's answer is true exactly when some row of the group's table has this hash |
| MdbxDriver.Driver.ReadHashes | global-db/dap_global_db_driver_mdbx.c:854-958 | the next 512 hashes above the given one, with the blank end mark when the table ends first |
| MdbxDriver.Driver.ReadBelow | global-db/dap_global_db_driver_mdbx.c:679-958 | the first records below a timestamp, at most 256, with a blank record when the table ends first |
| MdbxDriver.BelowPageMeans | global-db/dap_global_db_driver_mdbx.c:679-958 | the page is the rows below the bound, cut at its size, with a blank record behind them exactly when the table ends there |
| MdbxDriver.Driver.GetByHash | global-db/dap_global_db_driver_mdbx.c:754-845 | one packet for each requested hash that is present, in order of the request |
| StoredTransport.FillRowPacket | global-db/dap_global_db_driver_mdbx.c:783-838 | the packet built from a row, with lengths that count the NULs, reads back as the row's record |
| StoredTransport.UnpackRowsIff | global-db/dap_global_db_driver_mdbx.c:754-845 | a pack of rows is delivered whole for shorter group names and rejected whole for 128 characters |
| StoredTransport.StoredIsAnswered | global-db/dap_global_db_driver_mdbx.c:754-845 | after a record was stored in a table, a request for its hash finds its row and no other |
| StoredTransport.StoredChecks | global-db/dap_global_db_driver_mdbx.c:754-845 | a signed record that was stored in any table, requested by its hash, packed and unpacked comes back as it was, with flags reduced to DEL, and passes the check |
| GlobalDb.GroupMatchMask | global-db/dap_global_db.c:271-285 | the pointer loop decides exactly the mask relation: literal start, then an occurrence of what follows the wildcard |
| GlobalDb.MaskMeans | global-db/dap_global_db.c:271-285 | a mask of two texts around a wildcard covers exactly the groups that start with the first and have the second behind it, and those that end within the first |
| GlobalDb.PlainMaskMeans | global-db/dap_global_db.c:271-285 | a mask without wildcard covers exactly the groups that start with it or that it starts with |
| GlobalDb.ByGroupMeans | global-db/dap_global_db_cluster.c:74-81 | a group belongs to the first cluster whose mask covers it |
| GlobalDb.Db.Admit | global-db/dap_global_db.c:287-405 | the verdict of the acceptance rule (duplicate, time, expiry, role, conflict, re-stamp), as the decision function gives it |
| Consistency.AcceptIff | global-db/dap_global_db.c:287-402 | a record is accepted exactly when it is of a known group, its hash is new, its time in range, its signer a writer, and what is stored under its key, if anything, may be replaced and is older, or newer while the record is local and can be signed again |
| Consistency.RefusalMeans | global-db/dap_global_db.c:287-402 | the code of a refusal names the first of these conditions that fails |
| Consistency.SucceedsIff | global-db/dap_global_db.c:287-429 | an application returns success exactly when the record is accepted and the driver takes what it is written as, re-stamped if need be |
| Consistency.SetSucceedsIff | global-db/dap_global_db.c:992-1013 | a local set succeeds exactly when the node signs, the record is in order and writable, and what is stored may be replaced, however new that is |
| Consistency.DeleteSucceedsIff | global-db/dap_global_db.c:1368-1399 | the same for a local delete, where a node without a key can only delete older records |
| Consistency.AnnouncedIff | global-db/dap_global_db.c:415-419 | a record is broadcast exactly when it is accepted, local, and not a deletion of a key without record, and then as it is written |
| GlobalDb.Db.StoreObjApply | global-db/dap_global_db.c:287-429 | return code and all tables after one application, and the record broadcast for it, if any |
| GlobalDb.Db.SetSync | global-db/dap_global_db.c:992-1013 | a local write signs and applies a NEW record |
| GlobalDb.Db.DelSync | global-db/dap_global_db.c:1368-1399 | a local delete applies a signed tombstone; without a key it drops the group |
| GlobalDb.Db.GetSync | global-db/dap_global_db.c:433-455 | the value and timestamp of the record found under the key, a tombstone being found like any other record |
| GlobalDb.Db.SetRawSync | global-db/dap_global_db.c:1101-1116 | raw records are applied one after the other, a failed one not stopping the rest, and the code is that of the last; a driver with transactions goes back to the tables before a list of several whose last record failed |
| Consistency.AppliedMeans | global-db/dap_global_db.c:287-429 | an application stores nothing and changes nothing, or stores the offered record, re-stamped to one above the stored time if it conflicts |
| Consistency.AcceptedIsNewer | global-db/dap_global_db.c:369-405 | what is stored has a larger hash than the record it replaces |
| Consistency.StoredIsFoundIff | global-db/dap_global_db_driver_mdbx.c:567-593 | a stored record is found under its key exactly when it has a value or signature and its key fits |
| Consistency.ReadYourWrite | global-db/dap_global_db.c:369-455 | after a successful local set the next get returns the value, with the given time or the stored time plus one |
| Consistency.WriteThenRead | global-db/dap_global_db.c:287-429 | for any record that is applied with success, what the key scan finds next is the stored record if it can be found and nothing otherwise; value, key and flags are kept |
| Consistency.DeleteThenRead | global-db/dap_global_db.c:1368-1399 | after a successful local delete the key scan finds the tombstone, whenever it has a value or the node signs and the key fits |
| Consistency.TombstoneIsRead | global-db/dap_global_db.c:433-455 | a lookup of any row's key returns its value and time, tombstones included |
| Consistency.AnnouncedChecks | global-db/dap_global_db.c:369-429 | what a local write or delete broadcasts passes the check of a peer after the wire, re-stamped or not, and is the record that was stored |
| Sweep.CleanPass | global-db/dap_global_db.c:1727-1746 | one turn of the sweep reads a page below the bound and erases what is doomed in it |
| Sweep.PassMeans | global-db/dap_global_db.c:1712-1756 | on a table this removes exactly the doomed rows of the page |
| Sweep.ReadMeans | global-db/dap_global_db.c:1727-1730 | the sweep reads records up to now minus the time to live, and up to now without one |
| Sweep.PassRow | global-db/dap_global_db.c:1727-1746 | one turn takes a row away exactly when it is among the first 256, is read, and is doomed |
| Sweep.LocalPass | global-db/dap_global_db.c:1741-1744 | of a local group without time to live a turn leaves exactly the live and the pinned records |
| Sweep.SweptMeans | global-db/dap_global_db.c:1727-1746 | a row is gone exactly when it was on the page and doomed |
| Sweep.SweepEnds | global-db/dap_global_db.c:1727-1746 | without a stuck row the sweep ends and has removed exactly the rows below the bound |
| Sweep.SweepEndsIff | global-db/dap_global_db.c:1727-1746 | the sweep's loop ends exactly when no row below its bound is kept by its own rule |
| Sweep.StuckMeans | global-db/dap_global_db.c:1727-1746 | such a row is a pinned expired one, or one exactly as old as the time to live |
| NoResurrection.OfferIsNewest | global-db/dap_global_db.c:300-405 | an accepted record is newer than every record its key ever had, swept ones included |
| NoResurrection.ListKeepsInv | global-db/dap_global_db.c:1101-1117 | in a list of records each one stored is newer than all stored before it, earlier ones of the list included |
| NoResurrection.RunIsSafe | global-db/dap_global_db.c:287-429 | this holds at every step of every admissible run of applications, lists of records and sweeps, with or without transactions, the history being what was not undone |
| NoResurrection.NoResurrectionFromEmpty | global-db/dap_global_db.c:1712-1756 | in particular from an empty store |
| NoResurrection.WelcomeIsStoredIff | global-db/dap_global_db.c:369-405 | a record that passes all checks on itself is stored exactly when nothing is found under its key, or an older record that its signer may replace |
| NoResurrection.ReturnsIff | global-db/dap_global_db.c:287-429 | after any application or sweep, an older record of a row's key is taken exactly when that event displaced the row: by an unfindable record of its key, an older record whose cut key is its key, its own hash under another key, or its removal by the sweep |
| NoResurrection.UnfindableReturnsIff | global-db/dap_global_db_driver_mdbx.c:567-593 | after a record was accepted, an older one of its key is taken exactly when the first cannot be found by its key |
| NoResurrection.LongKeyIsAlwaysStored | global-db/dap_global_db_driver_mdbx.c:567-593 | a record with a key above 511 bytes is taken whatever is stored and however old it is |
| NoResurrection.LocalSweepReturnsIff | global-db/dap_global_db.c:1741-1744 | without time to live, a sweep lets older records of a key in exactly when the row is an unpinned tombstone of a local group on the page read |
| NoResurrection.ClockBackIff | global-db/dap_global_db.c:1712-1756 | with a time to live, an older record of a swept key is taken exactly while it is not expired itself, which is only before the time of the sweep |
| SyncReader.Trim | global-db/dap_global_db_ch.c:108-116 | the number of leading expired hashes of a page, the end mark not counted |
| SyncReader.ReadTurn | global-db/dap_global_db_ch.c:86-149 | one turn of the reader: what it sends, where it goes on, whether it runs again |
| SyncReader.TurnMeans | global-db/dap_global_db_ch.c:86-149 | a turn sends exactly the unexpired hashes of its page and moves behind it, also when the page is all expired |
| SyncReader.PagingComplete | global-db/dap_global_db_ch.c:103-137 | all turns together send every unexpired hash above the start, once and in order, in pages of at most 512 |
| SyncReader.UnexpiredMeans | global-db/dap_global_db_ch.c:103-137 | that list is strictly ascending and holds exactly the unexpired hashes |
| SyncReader.RunReader | global-db/dap_global_db_ch.c:86-149 | the re-queued job ends, is complete, and asks for the peer's hashes exactly when it was not itself an answer and the rows above the start are a multiple of 512 |
| SyncProtocol.ProcessHashes | global-db/dap_global_db_ch.c:151-181 | the array is compacted in place to the hashes not held, in order |
| SyncProtocol.MissingMeans | global-db/dap_global_db_ch.c:151-181 | a hash is requested exactly when it was offered and is not held |
| SyncProtocol.PackIsWrittenIff | global-db/dap_global_db_ch.c:214-271 | a received pack is written exactly when its sender is a member and every record in it is genuine and of a known group; one forged record, or a stranger, leaves all tables as they are |
| SyncProtocol.ProcessRecords | global-db/dap_global_db_ch.c:214-271 | the records of a pack are written as one list when all of them pass the check, and none otherwise |
| Merging.AuthoredArePeaceful | global-db/dap_global_db.c:322-368 | records signed here by ROOT signers, or by one owner for each key, with distinct hashes, meet all that the merging theorems ask for |
| Merging.ApplyJoins | global-db/dap_global_db.c:287-429 | applying a record among acceptable ones joins it to the table: nothing known is lost, nothing unknown appears, other groups stay |
| Merging.OrderIndependent | global-db/dap_global_db.c:294-405 | two sequences with the same records, in any order and with repeats, give the same table, the newest of each key |
| Merging.ApplyAllMerges | global-db/dap_global_db.c:287-429 | applying any sequence, record by record, gives the newest of each key of table and sequence |
| Merging.ApplyAllTakes | global-db/dap_global_db.c:1107-1111 | after a sequence with one record for each key, a key leads to its record if the table did not cover it and to the old row otherwise, other keys lead where they led, and the last code is success exactly when the last record was not covered |
| Merging.PackTakes | global-db/dap_global_db_ch.c:258-271 | a received pack is taken row by row when it commits and changes nothing otherwise; it commits without transactions, with a single row, or when its last row is news |
| Merging.PackJoinsIff | global-db/dap_global_db.c:1101-1117 | with transactions, all rows of a pack are covered afterwards exactly when it has one row, its last row is news, or none is |
| Merging.TwoRecordsCommuteIff | global-db/dap_global_db.c:322-405 | two records of one key commute exactly when the newer one's signer may replace the older record |
| Channel.ReaderTurn | global-db/dap_global_db_ch.c:86-149 | a turn over the table as it is now sends or leaves to the next turn every row above its hash, goes on exactly after a full page, and asks for the peer's hashes exactly on an empty one |
| Channel.TablesStep | global-db/dap_global_db_ch.c:214-271 | a delivery changes at most the table it is for, which forgets nothing and, without transactions, covers what a pack carried |
| Channel.CoreStep | global-db/dap_global_db_ch.c:86-271 | whatever is delivered, with or without transactions, both tables keep covering all they covered, and every row new at one node is covered by the other |
| Channel.GoneIsCovered | global-db/dap_global_db_ch.c:151-271 | a row that a node lost was replaced by one that the other node covers |
| Channel.DeliverShrinks | global-db/dap_global_db_ch.c:86-271 | every delivery makes what is under way lighter, so every run ends |
| Channel.CanEnd | global-db/dap_global_db_ch.c:86-395 | from every state that deliveries lead to, undone packs included, some run delivers everything |
| Convergence.MissingIsLacking | global-db/dap_global_db_ch.c:151-181 | the hashes requested for an announced page are those of its rows that the puller lacks, in order |
| Convergence.FoundAfterPack | global-db/dap_global_db_ch.c:214-271 | a page's pack is taken as a whole or undone as a whole, and what the puller knows of every other row stays |
| Convergence.CourseStep | global-db/dap_global_db_ch.c:86-271 | whichever packet of a pull is delivered next, the puller's table and what is under way are those that the stages of the pages determine |
| Convergence.PullCovers | global-db/dap_global_db_ch.c:86-271 | however the packets are interleaved, the puller covers a row of the peer in the end exactly when it did before or the pack of the row's page committed; nothing is lost, and the peer is unchanged |
| Convergence.PullMergesIff | global-db/dap_global_db_ch.c:86-271 | a pull brings everything exactly when every page commits or held no news, which is always so without transactions |
| Convergence.TwoPullsConvergeIff | global-db/dap_global_db_ch.c:86-271 | after a pull by A from B and one by B from A the tables are equal exactly when all pages of both pulls are kept, and then they are the newest record of each key |
| Convergence.TwoPullsConverge | global-db/dap_global_db_driver_mdbx.c:440-448 | without transactions, as the MDBX driver is set up, they are always equal |
| Convergence.UndonePage | global-db/dap_global_db.c:1101-1117 | with transactions and two nodes that hold (k1, new) and (k2, oldest), (k1, old), the page is not kept |
| Convergence.LongGroupNeverSyncs | global-db/dap_global_db_ch.c:183-271 | a group with a name of 128 characters is never changed at either node, whatever is under way |
| Session.ReplyCarries | global-db/dap_global_db_ch.c:86-271 | a row on its way is covered once its packet is delivered or on its way with the reply, also when its own table lost it meanwhile |
| Session.SuppliedStep | global-db/dap_global_db_ch.c:86-271 | whatever is delivered next, each row a node started with stays covered at the other node, if that writes without transactions, or under way to it, although both tables change |
| Session.PhaseStep | global-db/dap_global_db_ch.c:86-149 | until a GROUP_REQUEST is answered B's table is untouched, and one is sent exactly when the first reader ends on an empty page |
| Session.SessionEqualIff | global-db/dap_global_db_ch.c:86-395 | in every interleaving, a session opened by a START packet ends with the newest record of each key at A, and with equal tables exactly when the rows of B above the hash asked for are a multiple of 512 or B already covered all of A; the nodes written to are without transactions |
| PtrQueue.EventSocket.AddPtr | io/dap_events_socket.c:831-866 | a send writes to the pipe, starts a drain thread or appends to the buffer, which grows and shrinks around its contents |
| PtrQueue.EventSocket.DrainTurn | io/dap_events_socket.c:764-829 | a write of the drain thread moves a prefix of the buffer into the pipe and shifts the rest; the thread ends with the last one |
| PtrQueue.EventSocket.DrainFail | io/dap_events_socket.c:790-812 | a timeout or write error drops the buffer and ends the thread |
| PtrQueue.EventSocket.ProcInput | io/dap_events_socket.c:550-579 | the reader hands the pointers of one chunk to the callback, in order |
| PtrQueue.StepKeepsInv | io/dap_events_socket.c:764-866 | every critical section keeps order, the size bound, and a drain thread exactly while the buffer holds something |
| PtrQueue.EveryRun | io/dap_events_socket.c:764-866 | in every interleaving, dispatched ++ pipe ++ buffer is what was sent exactly when no error occurred, and is in order in any case |
| PtrQueue.LossesAreErrors | io/dap_events_socket.c:790-851 | pointers are lost exactly when a drain fails or a drain thread cannot be started |
| PtrQueue.CapacityMeans | io/dap_events_socket.c:851-861 | the overflow buffer grows by a block exactly when it is full and falls back to one block exactly when half of it will do |
| PtrQueue.EveryScheduleSettles | io/dap_events_socket.c:550-829 | in every schedule of drain writes and reads that move something, nothing is lost or reordered, the number of steps is bounded by what is queued, and when it is used up everything is dispatched and the drain thread has ended |
| PtrQueue.SomethingMoves | io/dap_events_socket.c:550-829 | until then such a step can be taken |
| ProcThread.Thread.AddPri | io/dap_proc_thread.c:140-160 | a callback goes to the end of its level, or is refused with -1 when it is NULL or the level is out of range |
| ProcThread.Thread.PullItem | io/dap_proc_thread.c:162-182 | the scan from the highest level takes the oldest item of the highest non-empty level |
| ProcThread.Thread.Complete | io/dap_proc_thread.c:184-204 | a callback that returned true goes back to the end of its own level |
| ProcThread.StepKeepsInv | io/dap_proc_thread.c:140-204 | the counter is always the number of queued items, and a pull finds nothing only when nothing is queued |
| ProcThread.LevelIsFifo | io/dap_proc_thread.c:140-204 | over every run, what a level held and received is what was pulled from it and what is left, in order |
| ProcThread.RunsAfterThoseAhead | io/dap_proc_thread.c:140-204 | an item with k ahead of it is the one pulled after exactly k pulls from its level, whatever is queued again |
| ProcThread.PullIsMostUrgent | io/dap_proc_thread.c:162-182 | in every run, a pull serves a level exactly when that level has an item and no higher one has |
| ProcThread.GoesBack | io/dap_proc_thread.c:184-204 | a callback that asks for it goes to the end of the level it was pulled from, and to no other, whatever was queued meanwhile |
| ProcThread.GetAuto | io/dap_proc_thread.c:115-130 | the circular scan returns a least loaded thread exactly when some load is below 2^32 - 1 or the start is least loaded |
| PollTable.Context.AddSocket | io/dap_context.c:506-523 | any socket gets the slot behind the last one, in arrays that double when full, and a table entry; the table stays valid exactly when its uuid is new and its descriptor valid |
| PollTable.Context.RemoveSocket | io/dap_context.c:610-727 | a socket's slot is freed in both arrays and its table entry removed, with -1 and no change when it has no context and -2 when its slot is out of range |
| PollTable.Context.CompressSlots | io/dap_worker.c:1544-1562 | the nested shifting loops leave the order-preserving filter of the live slots, with every socket pointing at its new slot |
| PollTable.Context.Shift | io/dap_worker.c:1549-1557 | closing one gap moves all later slots left by one in both arrays and re-indexes their sockets |
| PollTable.Context.Find | io/dap_context.c:736-743 | a uuid is found exactly when a live slot has it, and its back-index leads to that slot |
| PollTable.AddKeepsInvIff | io/dap_context.c:506-603 | an addition keeps the table valid exactly when the descriptor is valid and the uuid is new |
| PollTable.CounterIsSize | io/dap_context.c:590-630 | the counter stays the size of the table for every addition and removal, also of sockets with a uuid in use or unknown to the table |
| PollTable.AddKeepsInv | io/dap_context.c:506-603 | an addition keeps back-indices, table and counter in step and appends to the live sockets |
| PollTable.RemoveKeepsInv | io/dap_context.c:610-727 | a removal does too and takes out exactly that socket |
| PollTable.CompressKeepsInv | io/dap_worker.c:1544-1562 | so does a compression, and the live sockets stay as they are |
| PollTable.EveryRun | io/dap_context.c:506-727 | over every run each back-index names its own slot, each live slot waits for the events of its socket, the counter is the table's size, and live slots are in order of arrival |
| OutBuffer.EventSocket.WriteUnsafe | io/dap_events_socket.c:1761-1799 | the data is appended, in a buffer that grows or shrinks around its contents; 0 bytes on a closing socket |
| OutBuffer.EventSocket.InsertBufOut | io/dap_events_socket.c:1897-1910 | the data goes to the front if there is room, with the number of bytes returned, and nothing changes if there is none |
| OutBuffer.EventSocket.AfterSend | io/dap_worker.c:1463-1481 | the bytes sent leave the front and the rest moves up |
| OutBuffer.EventSocket.AfterError | io/dap_worker.c:1444-1462 | a send error empties the buffer and, unless forbidden, marks the socket for closing |
| OutBuffer.Conservation | io/dap_events_socket.c:1761-1910 | over every run, sent ++ buffer is the stream accepted so far (inserts before all unsent bytes, errors cutting it), and the buffer stays within its capacity |
| OutBuffer.WritesInOrder | io/dap_events_socket.c:1761-1799 | with writes and sends only, that stream is the writes, one after the other |
| OutBuffer.ClosingIff | io/dap_worker.c:1444-1462 | over every run, a socket is closing exactly when it was before or an error was to close it, and then every later write is refused |
| OutBuffer.CapacityMeans | io/dap_events_socket.c:1779-1791 | the buffer grows exactly when the data does not fit, and falls back to one block exactly when a quarter of it will do |
| JsonTree.EqualIff | 3rdparty/json-c/json_object.c:1501-1612 | two trees compare equal exactly when they denote the same JSON value: numbers across int64 and uint64, members without order |
| JsonTree.EqualIsEquivalence | 3rdparty/json-c/json_object.c:1554-1612 | comparison is reflexive, symmetric and transitive |
| JsonTree.DeepCopy | 3rdparty/json-c/json_object.c:1652-1802 | a copy compares equal to its source, and its nodes are new and distinct |
| JsonPointer.ReplaceOccurrences | 3rdparty/json-c/json_pointer.c:30-42 | the in-place replacement of a two-character occurrence gives the left-to-right replacement, with bytes behind the string untouched |
| JsonPointer.TokenRoundTrip | 3rdparty/json-c/json_pointer.c:116-118 | the pass for ~1 and then the pass for ~0 undo the escaping of every key |
| JsonPointer.IndexIff | 3rdparty/json-c/json_pointer.c:44-94 | a token is taken as index i exactly when it is the canonical decimal of i, or empty with i = 0 |
| JsonPointer.GetSinglePath | 3rdparty/json-c/json_pointer.c:96-127 | one token selects an array element or object member, or fails with the source's error |
| JsonPointer.GetRecursive | 3rdparty/json-c/json_pointer.c:156-190 | cutting, decoding and restoring the working copy in place follows the path token by token |
| JsonPointer.JsonPointerGet | 3rdparty/json-c/json_pointer.c:192-220 | the whole lookup, including NULL objects and the empty path |
| JsonPointer.PointerFollowsList | 3rdparty/json-c/json_pointer.c:156-220 | a pointer made of escaped keys and decimal indices leads to the node that the list itself leads to |
| JsonPointer.PointerFollows | 3rdparty/json-c/json_pointer.c:96-220 | a pointer made of any tokens gives the node they lead to, and the source's error where they lead nowhere: a token that is no index of an array, an index beyond its end, a missing key |
| JsonPointer.NothingToReplace | 3rdparty/json-c/json_pointer.c:30-42 | a token without the two characters is left as it is, other tildes included |
| JsonEscape.EscapeStr | 3rdparty/json-c/json_object.c:179-244 | the run-batched output is the per-character escaping, under both slash flags |
| JsonEscape.EscapeCharMeans | 3rdparty/json-c/json_object.c:188-235 | the text of each byte: the short escapes of section 7 of RFC 8259, lower-case \u escapes for other control characters, a slash by the flag |
| JsonEscape.EscapeRoundTrip | 3rdparty/json-c/json_object.c:179-244 | unescaping as in section 7 of RFC 8259 recovers every byte string |
| JsonEscape.EscapeIsWhole | 3rdparty/json-c/json_object.c:179-244 | the output has no control character, every quote in it has an odd number of backslashes before it, and an even number ends it, so it closes nowhere before its closing quote |
| Strptime.ConvNum | 3rdparty/strptime.c:561-586 | the digit loop returns the value and length that the recursive scan gives |
| Strptime.ConvMeans | 3rdparty/strptime.c:561-586 | an accepted number is within its limits, is the value of its digits, and has no more digits than the upper limit |
| Strptime.FindString | 3rdparty/strptime.c:588-608 | the nested loops return the first full name, or else the first short name, that the text starts with in any case |
| Strptime.Strptime | 3rdparty/strptime.c:106-559 | the format loop computes the parse of text, format and fields, composite conversions by recursion |
| Strptime.RoundTrip | 3rdparty/strptime.c:163-364 | every zero-padded date and time is read back by `%F %T` field by field with nothing left |
| Strptime.CenturyTrip | 3rdparty/strptime.c:219-381 | a year given as century and year of the century, in either order, is read back |
| Strptime.NameTrip | 3rdparty/strptime.c:588-608 | a name in letters of any case is found at its own place when the names before it differ from it |
| Strptime.ClockTrip | 3rdparty/strptime.c:244-280 | every time of a twelve-hour clock is read back by `%I:%M %p`, midnight and noon included |
| Strptime.FieldIff | 3rdparty/strptime.c:561-586 | a two-digit field with a separator behind it is read exactly when it is within its range |
| Strptime.LiteralIff | 3rdparty/strptime.c:128-137 | a character of the format that stands for itself has to be met |
| Strptime.StartsWithMeans | 3rdparty/strptime.c:588-608 | names are met in letters that differ in nothing but case |
| Strptime.DayTrip | 3rdparty/strptime.c:206-210 | every name of a day, in any case, is read as its number from Sunday |
| Strptime.MonthTrip | 3rdparty/strptime.c:212-217 | every name of a month, in any case, is read as its number from January |
| Strptime.SlashDateTrip | 3rdparty/strptime.c:163-166 | `%D` reads back month, day and two-digit year, from 1969 to 2068 |
| Strptime.ShortTimeTrip | 3rdparty/strptime.c:173-176 | `%R` reads back hours and minutes |
| Strptime.ClockWithLetterTrip | 3rdparty/strptime.c:178-181 | `%r` reads a twelve-hour time with the letter S in the place of the seconds |
| Strptime.ModifierIsChecked | 3rdparty/strptime.c:59-65 | the E and O modifiers are refused where they are not defined |
| Strptime.HalfIsRefused | 3rdparty/strptime.c:274-280 | am and pm are refused behind an hour above 11 |

## Left out

- Pinning: records with the PINNED flag are not offered in the run theorems, and the pinned groups are not modelled.
- PacketPack.PackRoundTrip: for packets that fit 32 bits with their header; `PacketPack.AppendWholeIff` says what happens to longer ones.
- GlobalDb.Db.SetSync: asks that the signed packet fits 32 bits, as the wire format does.
- GlobalDb.Db.Admit: the removal of an undecodable stored record before a write is not modelled, since no row of a well-kept table is undecodable.
- GlobalDb.Db.StoreObjApply: the callbacks of the cluster's notifiers and the change counter are not modelled; the broadcast is.
- Merging.OrderIndependent: stated for records that carry a value or signature, have distinct hashes and signers who may replace one another; `Merging.TwoRecordsCommuteIff` shows that the last condition is needed.
- Convergence.TwoPullsConvergeIff: no writes during the pulls and no record expiring; lost packets are not modelled.
- Session.SessionEqualIff: no local writes during the session and no record expiring; the peer is a member of the links cluster; lost packets, and HASHES packets dropped because the queues are long, are not modelled. Over a driver with transactions the outcome is stated for sessions in which B does not ask back (`Convergence.PullCovers`), and for the others only what every delivery keeps (`Channel.CoreStep`).
- MdbxDriver.Driver.TxnEnd: a table that was made inside an undone transaction counts as absent again.
- SyncReader.PagingComplete: timestamps whose sum with the time to live overflows 64 bits are excluded.
- NoResurrection.RunIsSafe: runs on a clock that does not go back, with keys that fit the table and no deletion callback.
- PtrQueue.EveryRun: bytes are counted in whole pointers; the mqueue, kqueue and Windows variants are not modelled.
- PollTable.Context.AddSocket: the poll variant only, and sockets are values whose `poll_index` field is the map `index`.
- ProcThread.Thread.Complete: the exit signal of the loop and the condition variable are not modelled.
- OutBuffer.EventSocket.WriteUnsafe: `realloc` does not fail; the debug check for foreign contexts is left out.
- JsonTree.DeepCopy: nodes are values with addresses; user data, serialisers and allocation failure are left out, and doubles are reals, so NaN does not occur.
- JsonPointer.PointerFollowsList: setting values through a pointer is left out.
- Strptime.Strptime: the conversions s, Z, z and G count as unsupported, and the fields filled before a failure are not returned.
- The SQLite and PostgreSQL drivers, the asynchronous request wrappers, cluster link management and the start timer of synchronisation are not modelled.
- Input buffers, timers, the server and event set-up are not modelled, nor are the growable array and the parser of json-c.
