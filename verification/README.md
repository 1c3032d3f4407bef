# LiMaoIM in Dafny

A model of the parts of the LiMaoIM server that carry its data, with proofs of what they promise.

* **The message log** (`internal/db`). Records are framed bytes (`LogRecord.dfy`). A segment file with its sparse
  index and the warm-section binary search (`Segment.dfy`, `Index.dfy`) refines a linear scan. A topic joins rolled
  segments into one flat log (`FlatLog.dfy`, `Topic.dfy`, `SegmentOrder.dfy`). The full sanity check repairs torn
  tails (`Repair.dfy`), on a general theory of prefix codes that the packet unpacker shares (`Framing.dfy`); which of
  the two checks a file gets when it is opened, and whether the numbering then goes on behind its last message, is
  stated exactly (`Opening.dfy`). A backup scans the files record by record and a recovery parses the messages back
  (`Backup.dfy`, `Recover.dfy`, `Message.dfy`).
* **The wire protocol** (`pkg/lmproto`, `internal/lim/packet.go`, `limao.go`). Versioned packet bodies over a stateful
  encoder and decoder (`Codec.dfy`, `Packets.dfy`), the header byte and the base-128 length code (`Protocol.dfy`),
  the stream unpacker (`Connection.dfy`) and the decode loop, up to the theorem that a stream of packets is delivered
  exactly, however it is split into chunks (`Incoming.dfy`).
* **The in-flight queues** (`internal/lim`). A binary heap whose items know their slot, in a slice that grows and
  shrinks (`HeapOrder.dfy`, `Heap.dfy`); the retry queue, which keeps a map and the heap in step by separate
  lock sections (`Retry.dfy`), under every interleaving of them (`RetryRuns.dfy`), and its timeout scan while
  deliveries are acknowledged (`RetryScan.dfy`); the node queue, whose scan delivers again while it is running
  (`NodeQueue.dfy`).
* **The per-key lock** (`pkg/keylock`): mutual exclusion for any number of goroutines while idle locks are deleted
  (`KeyLock.dfy`).
* **The slot bitmap** (`pkg/util/bitmap.go`): bit loops that refine set operations (`Slots.dfy`).
* **The client registry and paging** (`internal/lim`): two maps kept in step by connects and disconnects
  (`Clients.dfy`), and the upward page of a channel's messages (`Paging.dfy`).

Objects that the source updates in place are classes whose methods are proved against functions of their old state;
ghost fields hold what a run has done so far (the records of a segment, the items of a heap, the books of a queue).
Lock sections are methods. Whole runs are histories: a list of states, each related to the next by the step taken.
What every run keeps is proved of all histories, and a method that drives any list of steps (`Interleave`, `Run`,
`Serve`) is proved to make such a history. Files and mapped memory are byte sequences and arrays; clocks, RPC answers,
callbacks and the contents of the disk are parameters.

## Where the code does less than one would expect

For each of these the model says exactly when the code does what one would expect, for all inputs; where it is not
plain that the other case occurs, there is a run in which it does.

* An index entry names a record by its end, so a read of an offset that is an index key starts behind the record
  (`ReadLogs`) or finds nothing (`ReadAt`); a read of an offset that falls between two records finds nothing
  (`LogSegment.SelectedIsFrom`, `FlatLog.ReadIsFlat`, `LogTopic.Topic.ReadLastLogs`, `Paging.PageIsWindow`). The second
  record of a segment is an index key if and only if the first one takes more than 4096 bytes
  (`LogSegment.KeyAfterLongRecord`, `LogSegment.MissesStored`).
* Opening a topic checks its last segment, and goes on from the number that stands where the check says the last
  message starts. Which check is made decides when that is the last message's number (`LogOpening.RecoversLastNumber`).
  The full check: if and only if nothing is torn and there are two records or more, or the only one is at the base;
  behind a torn tail the file is repaired and the opening panics. The short one, for a file longer than the longest
  record that ends as a record does, parses from the first magic number it finds at an even distance behind 1 MiB + 24
  bytes: if and only if whole records lie between that and the last one, unless the same number stands elsewhere by
  accident; nothing is repaired. And never when that search runs past the end. So an intact log of two messages may fail
  to open (`LogOpening.PanicsOnIntact`), and the content of a message may decide which number comes next
  (`LogOpening.ContentDecides`). The segment can be appended to if and only if the check goes through to the end
  (`LogOpening.OpenForAppend`).
* A message that is refused for its size has used up its number: the log stays numbered without gaps if and only if
  the message is at most 1 MiB (`LogTopic.Topic.AppendNext`).
* A topic read with a limit of 2^63 or more stops after its first segment, which is right if and only if that holds
  enough records or nothing stands behind it (`LogTopic.Topic.ReadLogs`, `FlatLog.FirstSegmentOnly`).
* A string of 32768 bytes or more does not come back from its 16-bit signed length
  (`Codec.PutGet`, `MessageModel.MessageRoundTrip`, `Protocol.UnsendableIsLost`).
* A client sequence is carried modulo 2^32, and the client message number of a SENDACK not at all
  (`Protocol.PacketRoundTrip`).
* Behind four length digits that all ask for more, the unpacker has counted four of them and the decoder counts five.
  Decoding a whole frame is incomplete if and only if its length code is such a one and announces at most 1 MiB; then
  the loop of an authenticated connection never gets on, and that of an unauthenticated one crashes
  (`Incoming.IncompleteFrame`, `Incoming.StuckOnFrame`, `Incoming.StallingFrame`).
* A delivery is safely acknowledged if and only if its start has returned: before, its index is not its slot. A new
  item's index is 0, so that another delivery leaves the heap for it; a copy of a redelivered one has the index -1, so
  that it stays on the heap without being filed (`RetryQueues.FinishAAgrees`, `RetryQueues.RetryQueue.AcksOwnSlot`,
  `RetryQueues.AckInsideStart`).
* A delivery is safely started if and only if no other one with its key is filed, on the heap or timing out
  (`RetryQueues.StartAgrees`); one for another node, if and only if its number is not filed
  (`NodeQueues.NodeInFlightQueue.Start`).
* The timeout scan is not cut short if the earliest delivery due is in no round acknowledged before it is looked up,
  and, when no two are due at the same time, only then (`RetryScans.CutIfHit`). Cut short, it leaves due deliveries
  behind (`RetryScans.EndsWhereHit`, `RetryScans.LeavesDueBehind`).
* A segment file torn behind the first byte of a record is backed up without an error, one torn later is not
  (`LogBackup.TornFile`); a stream cut behind the magic number of a record is recovered without an error, one cut
  elsewhere inside a record is not (`LogRecover.RecoversTorn`).
* The registry stays in order over a run if and only if no connection connects again for another device
  (`Clients.RunInOrder`); a user stays listed as online after the last disconnect (`Clients.OnlineUsers`).
* Comparing slots runs past the end of a shorter second bitmap (`Slots.SlotsContains`). Cleaning aligns the ends of
  two bitmaps, so with different lengths it takes other slots away than the given ones, unless the two agree on every
  slot owned (`Slots.CleansGivenSlots`, `Slots.CleansAnotherSlot`).
* The page above the offset 2^32 - 1 starts at the beginning of the log (`Paging.PageIsWindow`).

## Model

| member | source | states |
|---|---|---|
| `LogRecord.HeaderFields` | internal/db/segment.go:434-442 | The header a record is written with gives back its magic number, version, data length, signed offset and apply index. |
| `LogRecord.RecordBytes` | internal/db/segment.go:434-442 | A record as bytes: 0x15 0x16, version 1, data length in 4 bytes, offset and apply index in 8 each, all highest byte first, the data, and 0x03. |
| `LogRecord.RecordAt` | internal/db/segment.go:446-454 | In a file made by appending, record k stands exactly between the end of its predecessor and the start of its successor. |
| `LogRecord.FlatHolds` | internal/db/segment.go:397-424 | Every record of such a file can be read back field by field from where it starts, and nothing follows the last one. |
| `LogRecord.FromCut` | internal/db/segment.go:376-395 | On increasing offsets, "from offset t on" is one cut of the log: everything behind it is at or above t, everything before it below. |
| `LogRecord.ScanFinds` | internal/db/segment.go:376-395 | The recursive record-by-record scan, started at any record, finds the first record with the target offset and reports no data exactly when there is none. |
| `LogRecord.RecordSizeIsPrefixCode` | internal/db/segment.go:193-233 | Whether a whole record stands at the head of a buffer, and how long it is, does not depend on the bytes behind it. |
| `LogRecord.TornRecordIsNoFrame` | internal/db/segment.go:207-222 | No proper prefix of a record is taken for a record. |
| `Framing.WholePrefixIsFramed` | internal/lim/packet.go:15-37 | Cutting frame after frame off a buffer consumes a sequence of whole frames and leaves something that does not start with one. |
| `Framing.LongestFramedPrefix` | internal/db/segment.go:193-233 | No longer prefix of the buffer splits into whole frames. |
| `Framing.WholeLenExtends` | internal/lim/packet.go:39-44 | Bytes that arrive behind a consumed prefix extend it by exactly the frames they complete. |
| `Framing.WalkFromStart` | internal/db/segment.go:191-233 | Walking byte offsets of one buffer comes to the same end, and the same last start, as cutting pieces off it. |
| `Framing.WalkEndsAt` | internal/db/segment.go:191-233 | A walk from any position ends its last round at a given whole frame if and only if that is the last one and only whole frames lie between. |
| `LogRepair.KeptIsLongest` | internal/db/segment.go:184-233 | For any bytes, what the full check keeps splits into whole records and is the longest prefix that does. |
| `LogRepair.KeptTwice` | internal/db/segment.go:235-254 | Checking a checked file again keeps all of it. |
| `LogRepair.KeptOfTorn` | internal/db/segment.go:207-222 | For whole records followed by bytes that are no whole record, exactly the whole records are kept. |
| `LogRepair.LastStartOfFile` | internal/db/segment.go:191-256 | The check reports the start of the last record of a clean file, and the first damaged byte of any other. |
| `LogRepair.ProbeIs` | internal/db/segment.go:142-164 | The search finds the first magic number at an even distance from where it starts; without one it falls back to the full check or fails on the last byte, as the parity of the length says. |
| `LogIndex.Index.Append` | internal/db/index.go:109-126 | An entry with relative offset and position as 32-bit numbers is added behind the others, as eight bytes, the offset first, and no other byte changes; a full index drops it. |
| `LogIndex.Index.BinarySearch` | internal/db/index.go:252-272 | The search with rounded-up middle finds the greatest entry at or below the target in any range that is known to hold it. |
| `LogIndex.Index.IndexSlotRangeFor` | internal/db/index.go:247-282 | Splitting off the warm section does not change the answer: the greatest entry at or below the target, -1 when all are above. |
| `LogIndex.Index.Lookup` | internal/db/index.go:130-141 | The greatest entry at or below the target, or the base with position 0 when there is none. |
| `LogIndex.Index.ResetPosition` | internal/db/index.go:89-106 | The opening scan stops at the first slot with relative offset 0 or at the end of the file, and fails only on a file that is no whole number of slots. |
| `LogIndex.Index.LeavesIndexFile` | internal/db/index.go:181-195 | What is on disk after a clean close or after a crash is a file of exactly the appended entries. |
| `LogIndex.RecoversAppended` | internal/db/index.go:89-106 | Of such a file the opening scan recovers exactly the appended entries, because none has relative offset 0. |
| `LogIndex.OpenIndex` | internal/db/index.go:47-87 | An index opened on such a file has the appended entries and can be appended to. |
| `LogSegment.SparseBound` | internal/db/segment.go:281-289 | 4097 bytes per index entry plus the bytes since the last entry never exceed the file: an index of 10 MiB never fills. |
| `LogSegment.EntryRecord` | internal/db/segment.go:276-288 | Every index entry (o, p) names a stored record: o is its offset and p its end, the start of its successor; it is never the first record. |
| `LogSegment.EntryParts` | internal/db/segment.go:276-288 | An index entry (o, p) parts the file: exactly the records with offset at most o lie before p. |
| `LogSegment.SparseRises` | internal/db/segment.go:281-289 | The entries of any run of appends rise strictly and none has relative offset 0. |
| `LogSegment.Extended` | internal/db/segment.go:265-292 | One more record adds an entry exactly when more than 4096 bytes have gone by since the last one, with the position behind the record. |
| `LogSegment.Marked` | internal/db/segment.go:276-289 | What an append leaves in the index and the interval count is what the longer list of records says. |
| `LogSegment.SelectedIsFrom` | internal/db/segment.go:300-323 | What a read through the index selects is what a plain scan selects if and only if the target is no index key and is the base, a stored offset, or above all records. |
| `LogSegment.KeyAfterLongRecord` | internal/db/segment.go:281-289 | The second record of a new segment is an index key if and only if the first takes more than 4096 bytes; then a read of it gives nothing instead of the record. |
| `LogSegment.MissesStored` | internal/db/segment.go:358-374 | A run in which `ReadAt` does not find a stored record. |
| `LogSegment.HandsOutPrefix` | internal/db/segment.go:346-351 | What a failing callback has been given does not depend on what would have come behind. |
| `LogSegment.HandsOutBehind` | internal/db/segment.go:346-351 | Behind records that were all taken, a callback fails or goes on as it does on the rest alone. |
| `LogSegment.Segment.constructor` | internal/db/segment.go:36-66 | A new segment is empty and in order. |
| `LogSegment.Segment.AppendLog` | internal/db/segment.go:265-292 | Appends exactly the wrapped record, or refuses data above 1 MiB and changes nothing; file, position, index and interval count keep step over every run. |
| `LogSegment.Segment.IndexHasRoom` | internal/db/index.go:117-120 | As long as positions fit 32 bits the index never drops an entry. |
| `LogSegment.Segment.ReadLogsAtPosition` | internal/db/segment.go:333-355 | From the start of record k: the data of the first `limit` records from k on is handed out, up to the record the callback fails on. |
| `LogSegment.Segment.ReadLogs` | internal/db/segment.go:300-323 | Refines the plain scan: for a target that is no index key, the first `limit` records from the target on if it is stored or the base, none otherwise; for an index key, the records behind it; a failing callback ends the read early. |
| `LogSegment.Segment.ReadAt` | internal/db/segment.go:358-374 | The data of the record with this offset exactly when it is stored and no index key; an index key is reported missing. |
| `LogSegment.ScanRecords` | internal/db/segment.go:191-233 | The checking loop, from any position on, stops behind the whole records there, with the start of its last round. |
| `LogSegment.Segment.Check` | internal/db/segment.go:184-257 | Parses whole records from a position on, says where the last round began, and cuts the rest only if asked to; when nothing is whole the position stays as it was. |
| `LogSegment.Segment.FindMagic` | internal/db/segment.go:142-157 | The search loop of the short check. |
| `LogSegment.Segment.SanityCheck` | internal/db/segment.go:100-164 | For any bytes: which check is made, what it leaves of the file, the position it sets, and where it says the last message starts. |
| `LogSegment.OpenSegment` | internal/db/segment.go:36-66 | A segment opened on the files a run left, closed or crashed, has the same records and index entries. |
| `LogSegment.Segment.RecoverLastSeq` | internal/db/topic.go:100-113 | Opening for any bytes: the base when the check says 0, else the number that stands where it says the last message starts, and a crash when the check fails or there is no room for one. |
| `LogSegment.Segment.LeavesFiles` | internal/db/segment.go:457-465 | The files a run leaves, closed or crashed, hold exactly its records and entries. |
| `LogOpening.ComesToLast` | internal/db/segment.go:184-233 | Started anywhere in a file of whole records with a torn tail, the check comes to the last record if and only if nothing is torn and only whole records lie between. |
| `LogOpening.FullyChecked` | internal/db/topic.go:100-113 | What opening makes of such a file after a full check: the last number, the base for a single record, a crash behind a torn tail. |
| `LogOpening.RecoversLastNumber` | internal/db/topic.go:100-113 | The exact condition, for either check, under which opening goes on from the number of the last message. |
| `LogOpening.RecoversFromRecord` | internal/db/segment.go:142-164 | It does if the magic number found is that of any record. |
| `LogOpening.SearchPastEnd` | internal/db/segment.go:142-156 | The search runs past the end of a small last record that starts one byte before it. |
| `LogOpening.PanicsOnIntact` | internal/db/topic.go:101-104 | An intact log of two messages that cannot be opened. |
| `LogOpening.FindsRecord` | internal/db/segment.go:142-164 | What looks like a record where the search starts is taken for the last message, whatever stands before it. |
| `LogOpening.ContentDecides` | internal/db/topic.go:105-113 | An intact log of two messages, the second ending like the header of a record: opening goes on from the number in that header. |
| `LogOpening.OpenForAppend` | internal/db/segment.go:100-164 | Files a run left, opened and checked, can be appended to if and only if the check goes through to the end. |
| `FlatLog.FlatFrom` | internal/db/topic.go:142-156 | From t on, the joined log is what the chosen segment has from t on followed by all later segments, also when t is a later segment's base and the previous segment is chosen. |
| `FlatLog.ReadIsFlat` | internal/db/topic_public.go:51-97 | A topic read gives the first `limit` records of the flat log from t on if and only if t is no index key of the chosen segment and does not fall between two of its records. |
| `FlatLog.ReadDataIsFlat` | internal/db/topic_public.go:51-97 | The data a read hands out is then the data of the first `limit` records of the flat log from t on. |
| `FlatLog.FirstSegmentOnly` | internal/db/topic_public.go:71-72 | Reading no further than the chosen segment is right if and only if it holds enough records or nothing stands behind it. |
| `FlatLog.DenseRead` | internal/db/topic_public.go:51-97 | On a log numbered 1 to n a read from t gives everything from t on, or from t + 1 on exactly when t is an index key, also when t is the base of a later segment. |
| `FlatLog.LastDatas` | internal/db/topic_public.go:37-48 | What reading the last `limit` records asks for and gets on such a log: exactly these, one less when the number read from is an index key, all when there are fewer. |
| `FlatLog.LastRead` | internal/db/topic_public.go:37-48 | On a log numbered from 1, the last `limit` records come back if and only if the first of their numbers is no index key. |
| `FlatLog.WholeRead` | internal/db/topic_public.go:37-48 | Asking for at least as many records as there are gives the whole log. |
| `SegmentOrder.SortSegments` | internal/db/topic.go:119-128 | The bubble sort in place: the same bases in rising order, strictly rising when none is there twice. |
| `LogTopic.Topic.Roll` | internal/db/topic.go:171-179 | A new empty segment based at the record to come; the flat log stays the same and its layout in order. |
| `LogTopic.Topic.AppendLog` | internal/db/topic_public.go:19-34 | A record at or below the newest one of this run changes nothing; any other is added behind the flat log, rolling exactly when the active segment is full; positions stay below 2^32. |
| `LogTopic.Topic.SegmentsBounded` | internal/db/topic_public.go:30-33 | No segment, rolled or active, ever passes its limit by more than one record. |
| `LogTopic.Topic.BaseOffset` | internal/db/topic.go:142-156 | The first segment whose closed range up to the next base holds the offset; none exactly for a negative offset. |
| `LogTopic.Topic.NextBaseOffset` | internal/db/topic.go:158-169 | The segment behind a given base, none behind the last. |
| `LogTopic.Topic.ReadLogs` | internal/db/topic_public.go:51-97 | What the chosen segment selects followed by the later segments, up to the limit or to where the callback fails; off the index keys and outside the gaps that is the flat log from the offset on; a limit of 2^63 or more stops after the first segment. |
| `LogTopic.Topic.ReadLastLogs` | internal/db/topic_public.go:37-48 | For every limit: on a log numbered without gaps the last `limit` records, or all when there are fewer, without the first of them exactly when that is an index key. |
| `LogTopic.Topic.NextOffset` | internal/db/topic_public.go:9-12 | The next number, modulo 2^32, which counts as given out from then on. |
| `LogTopic.Topic.AppendNext` | internal/db/topic_public.go:9-34 | Appending under the next number keeps the log numbered 1, 2, ... up to the last number given out if and only if the record is not too large. |
| `LogTopic.Topic.AppendAll` | internal/db/topic_public.go:9-34 | Any run of such appends over any number of segments: no gaps, and all data in order. |
| `Codec.GetsString` | pkg/lmproto/encoder.go:109-117 | A length-prefixed string is read back if and only if it is shorter than 32768 bytes. |
| `Codec.GetsField` | pkg/lmproto/decoder.go:64-76 | Each kind of value is read back from its bytes, and the reader stands right behind them. |
| `Codec.PutGet` | pkg/lmproto/decoder.go:130-175 | A sequence of values written by the encoder is read back by the decoder if and only if every string fits its header. |
| `Codec.Encoder.WriteString` | pkg/lmproto/encoder.go:99-117 | Writes the length as 16 bits and then the bytes, for the empty string only the length. |
| `Codec.Encoder.WriteInt64` | pkg/lmproto/encoder.go:66-77 | Writes the eight bytes of the two's complement, most significant first. |
| `Codec.Encoder.WriteUint32` | pkg/lmproto/encoder.go:94-96 | Writes the four bytes, most significant first. |
| `Codec.Encoder.WriteInt32` | pkg/lmproto/encoder.go:56-63 | Writes the four bytes of the two's complement, most significant first. |
| `Codec.Decoder.Uint8` | pkg/lmproto/decoder.go:65-76 | Reads the next value of the layout, or fails exactly when reading the layout fails here. |
| `Codec.Decoder.Int64` | pkg/lmproto/decoder.go:103-114 | The same for a signed 64-bit number. |
| `Codec.Decoder.Int32` | pkg/lmproto/decoder.go:131-133 | The same for a signed 32-bit number. |
| `Codec.Decoder.Uint32` | pkg/lmproto/decoder.go:244-250 | The same for an unsigned 32-bit number. |
| `Codec.Decoder.String` | pkg/lmproto/decoder.go:212-227 | The same for a string; a negative length crashes. |
| `Codec.Decoder.BinaryAll` | pkg/lmproto/decoder.go:163-175 | Takes all the rest. |
| `Bytes.U32RoundTrip` | pkg/lmproto/encoder.go:139-149 | A number written in four bytes is read back modulo 2^32. |
| `Bytes.I64RoundTrip` | pkg/lmproto/decoder.go:103-114 | A signed number written in eight bytes is read back. |
| `Bytes.BigEndianBytes` | pkg/lmproto/encoder.go:56-63 | A number in two or four bytes is these digits to base 256, the highest first. |
| `Bytes.BigEndianHalves` | pkg/lmproto/encoder.go:66-77 | Eight bytes are the four of the high half and then the four of the low one. |
| `MessageModel.MarshalMessage` | internal/db/model.go:51-66 | Header, version, setting, message ID in 8 bytes, sequence in 4, client number, timestamp in 4, sender, queue user and channel, each string behind its 16-bit length, channel type and payload; the apply index is not stored. |
| `MessageModel.UnmarshalMessage` | internal/db/model.go:69-109 | Gives the message whose stored fields these bytes are, fails on too few bytes, crashes on a negative length; the apply index is left as it was. |
| `MessageModel.MessageRoundTrip` | internal/db/model.go:51-109 | A stored message is read back, apart from its apply index, if and only if its strings fit their headers, and then nothing else comes out. |
| `MessageModel.StoredDecodes` | internal/db/model.go:69-109 | These bytes are decoded to exactly this message, under the apply index it is decoded into, and to nothing else. |
| `MessageModel.StoredFieldsDetermine` | internal/db/model.go:51-66 | Two messages have the same stored fields if and only if they differ in the apply index at most. |
| `Packets.EncodeConnect` | pkg/lmproto/connect.go:71-90 | As bytes: the version byte, above 2 the length and client key, the device flag, length and device ID, the timestamp in 8 bytes, length and uid, length and token. |
| `Packets.DecodeConnect` | pkg/lmproto/connect.go:36-69 | Gives the packet these bytes say, choosing the fields by the version byte inside the body. |
| `Packets.EncodeConnack` | pkg/lmproto/connack.go:26-36 | As bytes: from version 3 on length and server key, length and salt; the time difference in 8 bytes and the reason code. |
| `Packets.DecodeConnack` | pkg/lmproto/connack.go:38-63 | Gives the packet these bytes say at this version. |
| `Packets.EncodeSend` | pkg/lmproto/send.go:95-118 | As bytes: from version 4 on the setting, 0x80 or 0; from 3 on length and message key; the client sequence modulo 2^32 in 4 bytes; from 2 on length and client number; length and channel, channel type, payload. |
| `Packets.DecodeSend` | pkg/lmproto/send.go:36-93 | Gives the packet these bytes say at this version; of the setting byte only the highest bit. |
| `Packets.EncodeSendack` | pkg/lmproto/sendack.go:54-65 | As bytes: client sequence modulo 2^32 in 4 bytes, message ID in 8, message sequence in 4, reason code; the client message number is not written. |
| `Packets.DecodeSendack` | pkg/lmproto/sendack.go:27-52 | Gives the packet these bytes say. |
| `Packets.EncodeRecv` | pkg/lmproto/recv.go:107-138 | As bytes: from version 4 on the setting; from 3 on length and message key; message ID in 8 bytes, sequence in 4; from 2 on length and client number; timestamp in 4, length and channel, channel type, length and sender, payload. |
| `Packets.DecodeRecv` | pkg/lmproto/recv.go:37-105 | Gives the packet these bytes say at this version; of the setting byte only the highest bit. |
| `Packets.EncodeRecvack` | pkg/lmproto/recvack.go:41-47 | As bytes: message ID in 8, message sequence in 4. |
| `Packets.DecodeRecvack` | pkg/lmproto/recvack.go:25-39 | Gives the packet these bytes say. |
| `Packets.EncodeDisconnect` | pkg/lmproto/disconnect.go:43-51 | As bytes: the reason code, then length and reason. |
| `Packets.DecodeDisconnect` | pkg/lmproto/disconnect.go:25-41 | Gives the packet these bytes say. |
| `Packets.FieldsDetermine` | pkg/lmproto/recv.go:107-138 | Two packets of one type have the same body at a version if and only if they agree on what this version carries. |
| `Packets.LayoutOfFields` | pkg/lmproto/connect.go:36-50 | What the encoder writes is laid out as the decoder expects it, also for CONNECT, whose first byte decides. |
| `Packets.BodyRoundTrip` | pkg/lmproto/send.go:36-118 | Decoding an encoded body gives exactly what the version carries of the packet, and nothing else. |
| `Packets.TooLongBody` | pkg/lmproto/encoder.go:109-117 | A body with a string of 32768 bytes or more does not come back. |
| `Packets.ConnectDecodes` | pkg/lmproto/connect.go:36-69 | Under packet type 1 these bytes, protocol byte to token, are decoded to exactly this CONNECT, field by field, and to nothing else; without the client key up to version byte 2. |
| `Packets.ConnackDecodes` | pkg/lmproto/connack.go:38-63 | Under type 2 the bytes of a CONNACK are decoded to exactly it; server key and salt are empty up to version 2. |
| `Packets.SendDecodes` | pkg/lmproto/send.go:36-93 | Under type 3 the bytes of a SEND are decoded to exactly it, with what the version lacks left empty and the client sequence modulo 2^32. |
| `Packets.SendackDecodes` | pkg/lmproto/sendack.go:27-52 | Under type 4 the bytes of a SENDACK are decoded to exactly it, with an empty client message number. |
| `Packets.RecvDecodes` | pkg/lmproto/recv.go:37-105 | Under type 5 the bytes of a RECV are decoded to exactly it, with what the version lacks left empty. |
| `Packets.RecvackDecodes` | pkg/lmproto/recvack.go:25-39 | Under type 6 the bytes of a RECVACK are decoded to exactly it. |
| `Packets.DisconnectDecodes` | pkg/lmproto/disconnect.go:25-41 | Under type 9 the bytes of a DISCONNECT are decoded to exactly it. |
| `Protocol.HeaderRoundTrip` | pkg/lmproto/common.go:19-33 | The four flags always survive the header byte, the type if and only if it fits four bits. |
| `Protocol.HeaderByteRoundTrip` | pkg/lmproto/common.go:19-33 | Every byte is the header byte of the header it is read as. |
| `Protocol.HeaderBits` | pkg/lmproto/common.go:19-22 | The type is the high four bits of the header byte; duplicate, sync once, red dot and no persist are the bits worth 8, 4, 2 and 1. |
| `Protocol.EncodeVariable` | pkg/lmproto/protocol.go:212-223 | The digits of the length to base 128, lowest first, the top bit on all but the last; none for zero. |
| `Protocol.VariableDigits` | pkg/lmproto/protocol.go:212-223 | Written out for one to four digits: the lowest comes first, and all but the last have 0x80 added. |
| `Protocol.DecodeLength` | pkg/lmproto/protocol.go:224-238 | Reads up to four digits; after four that all ask for more it counts five bytes, and it crashes when the input ends first. |
| `Protocol.LengthRoundTrip` | pkg/lmproto/protocol.go:212-238 | The length code is inverted, whatever follows it, if and only if the length is between 1 and 2^28 - 1. |
| `Protocol.EncodePacket` | pkg/lmproto/protocol.go:134-182 | Header byte, length code and body; PING and PONG are one byte without flags. |
| `Protocol.DecodePacket` | pkg/lmproto/protocol.go:99-131 | Gives the packet at the head of the data and its size; an error above 1 MiB, for an unknown type or a body cut short; nothing when the body has not arrived. |
| `Protocol.PacketRoundTrip` | pkg/lmproto/protocol.go:99-182 | Whatever follows it, an encoded packet with short strings and at most 1 MiB of body is decoded to what its version carries of it, in exactly its own length, and to nothing else. |
| `Protocol.UnsendableIsLost` | pkg/lmproto/protocol.go:112-115 | No other packet round trips: a string of 32768 bytes or a body above 1 MiB is never decoded back. |
| `Connection.FrameLenIsPrefixCode` | internal/lim/packet.go:15-37 | Whether a whole packet stands at the head of the buffer, and how long it is, does not depend on what follows it. |
| `Connection.UnpackLength` | internal/lim/packet.go:47-64 | The unpacker's own length decoder agrees with the length code: the value and its digits, or nothing when the input ends first. |
| `Connection.NextFrame` | internal/lim/packet.go:16-33 | One round: the size of the whole frame at this offset, 0 when it has not arrived. |
| `Connection.WholeFrames` | internal/lim/packet.go:13-37 | The loop collects exactly the longest prefix made of whole frames. |
| `Connection.Conn.Unpack` | internal/lim/packet.go:8-45 | Takes the longest prefix of whole frames off the connection's buffer and leaves exactly the rest. |
| `Connection.ChunksDoNotMatter` | internal/lim/packet.go:8-45 | For every byte stream and every split into chunks, repeated unpacking emits the longest prefix made of whole frames and keeps exactly the rest buffered. |
| `Connection.Feed` | internal/lim/packet.go:8-45 | Receiving and unpacking chunk after chunk emits and keeps what that statement speaks of. |
| `Incoming.DecodingOfFrame` | internal/lim/limao.go:260-270 | On a frame whose length code ends, the two length decoders agree: decoding depends on the frame alone, is never incomplete, and takes exactly the frame. |
| `Incoming.IncompleteFrame` | pkg/lmproto/protocol.go:117-120 | Decoding a whole frame is incomplete if and only if its length code never ends and announces at most 1 MiB. |
| `Incoming.StallingFrame` | internal/lim/packet.go:47-64 | Such a frame: SEND with four digits that all ask for more. |
| `Incoming.OnPacket` | internal/lim/limao.go:252-282 | For any bytes: all packets when packet after packet decodes up to the end; closed at the first undecodable or unauthenticated one; a crash or a loop that never gets on at an incomplete one. |
| `Incoming.StuckOnFrame` | internal/lim/limao.go:258-270 | On one whole frame an authenticated connection loops forever if and only if the frame is such a one; an unauthenticated one then crashes. |
| `Incoming.HandlingOfFrames` | internal/lim/limao.go:258-281 | On whole frames whose length codes end the loop goes frame by frame, as decoding each frame alone says, and always gets on. |
| `Incoming.EncodedIsFrame` | internal/lim/packet.go:16-33 | The unpacker cuts an encoded packet off as one frame. |
| `Incoming.EndToEnd` | internal/lim/limao.go:258-281 | Of the encodings of sendable packets the loop delivers exactly these packets, in order; on a connection without authentication if and only if all are CONNECT, and otherwise it closes. |
| `Incoming.CutAtBounds` | internal/lim/packet.go:23-37 | A part of a stream of frames is cut at a frame bound, and the rest continues the stream. |
| `Incoming.ServeChunk` | internal/lim/limao.go:252-282 | One chunk received, unpacked and handled delivers exactly the packets it completes. |
| `Incoming.Serve` | internal/lim/limao.go:252-282 | Whatever chunks a stream of sendable packets arrives in, every packet is delivered, in order, and nothing is left in the buffer. |
| `LogBackup.Scanner.ReadFullWrapLog` | internal/db/scanner.go:70-134 | Gives the record at the position byte for byte with its apply index, the end of the file when not even a magic number is left, an error for anything damaged or cut short. |
| `LogBackup.Scanner.Scan` | internal/db/scanner.go:30-62 | One step: a new path starts at 0; hands one record out and stays open, or ends closed at the end, at a record above the apply index, at damage, or when the callback fails. |
| `LogBackup.Scanner.ScanFile` | internal/db/db_file_public.go:650-662 | Driving the scanner to its end hands out what the pieces of the file say and leaves it closed. |
| `LogBackup.HandsRecords` | internal/db/scanner.go:40-61 | From any record on, the pieces join to the file up to the first record above the apply index. |
| `LogBackup.ScannedFile` | internal/db/scanner.go:30-134 | Scanning whole records with a torn tail hands out exactly the records before the first one above the apply index, and fails if and only if it reaches a tail of two bytes or more. |
| `LogBackup.BackupMessages` | internal/db/db_file_public.go:648-665 | For one topic: writes what scanning its segment files in order hands out; the first failure ends it. |
| `LogBackup.BackupIsFlat` | internal/db/db_file_public.go:648-665 | The backup of whole segments is the one flat log they make, and does not fail. |
| `LogBackup.TornFile` | internal/db/db_file_public.go:648-662 | Backing up one file fails if and only if it is missing or has two bytes or more behind its last whole record; its whole records are written. |
| `LogBackup.BackupOfTorn` | internal/db/db_file_public.go:648-665 | For files with torn tails or missing ones: the backup fails if and only if one of them is such a file, and holds exactly the whole records up to and with the first of these. |
| `LogRecover.RecoverMessage` | internal/db/db_file_public.go:763-820 | For any bytes and any place: finished exactly at the end; a magic number that ends the stream is ignored; a whole record gives the message its content is, or fails or crashes as decoding the content does; everything else fails, among it a wrong start or end magic number and a record cut short. |
| `LogRecover.RecoversMessage` | internal/db/db_file_public.go:805-811 | A stored message is recovered apart from its apply index, and as nothing else. |
| `LogRecover.RecoverMessages` | internal/db/db_file_public.go:736-744 | For any bytes: succeeds if and only if the stream is records whose contents are messages, up to its end or to a magic number that ends it, and gives exactly these; otherwise the loop ends at the first place where no message can be read, with those before it. |
| `LogRecover.OneReading` | internal/db/db_file_public.go:736-744 | The messages up to a place where none can be read are determined by the bytes, and so is the place. |
| `LogRecover.StreamIsRead` | internal/db/db_file_public.go:736-744 | When reading has come as far as it can, the stream is what has been read if it has come to the end, and no stream of messages otherwise. |
| `LogRecover.RecoversTorn` | internal/db/db_file_public.go:736-820 | Of whole records followed by less than one more, exactly the messages of the whole ones are recovered, in order, apart from their apply index; it is a success if and only if nothing is behind them or just the magic number. |
| `LogRecover.BackupAndRecover` | internal/db/db_file_public.go:638-820 | Backing a topic up and recovering it gives all messages of all its segments, in order, apart from their apply index. |
| `HeapOrder.StepUp` | internal/lim/in_flight_pqueue.go:72-82 | Swapping an element that belongs further up with its parent leaves a heap but for the parent's place. |
| `HeapOrder.StepDown` | internal/lim/in_flight_pqueue.go:83-98 | Swapping an element with its smaller child moves the only disorder down, and the parent above stays in order. |
| `HeapOrder.FirstIsLeast` | internal/lim/in_flight_pqueue.go:63-66 | The first element of a heap is a smallest one. |
| `InFlightHeap.InFlightPqueue.Swap` | internal/lim/in_flight_pqueue.go:9-13 | Swaps two slots, and both items know their new slot. |
| `InFlightHeap.InFlightPqueue.Up` | internal/lim/in_flight_pqueue.go:72-82 | Puts the one element that may belong further up in its place; back-pointers stay true and no other slot beyond the heap part changes. |
| `InFlightHeap.InFlightPqueue.Down` | internal/lim/in_flight_pqueue.go:83-99 | Puts the one element that may belong further down in its place, so that at most the starting place may still belong further up. |
| `InFlightHeap.InFlightPqueue.Push` | internal/lim/in_flight_pqueue.go:15-27 | Keeps heap order and back-pointers and adds exactly this item; doubling always makes room because the capacity is never below 13. |
| `InFlightHeap.InFlightPqueue.Pop` | internal/lim/in_flight_pqueue.go:29-43 | Removes exactly the first item, marks it -1, keeps heap order, back-pointers and a capacity of 13 or more. |
| `InFlightHeap.InFlightPqueue.Remove` | internal/lim/in_flight_pqueue.go:45-56 | Removes exactly the item in slot i, marks it -1, and keeps heap order and back-pointers. |
| `InFlightHeap.InFlightPqueue.PeekAndShift` | internal/lim/in_flight_pqueue.go:58-70 | Removes an item with the smallest priority if it is due; removes nothing exactly when no item is due. |
| `RetryQueues.StartAKeeps` | internal/lim/retry_queue.go:41-51 | Filing an item under a free key keeps map and heap in agreement up to the items between two sections. |
| `RetryQueues.StartBKeeps` | internal/lim/retry_queue.go:35-40 | So does putting it on the heap. |
| `RetryQueues.FinishAAgrees` | internal/lim/retry_queue.go:53-68 | Taking an item off the map for an acknowledgement keeps them in agreement if and only if its start has returned. |
| `RetryQueues.FinishBKeeps` | internal/lim/retry_queue.go:73-82 | Taking an acknowledged item off the heap keeps them in agreement. |
| `RetryQueues.TimeAKeeps` | internal/lim/retry_queue.go:86-88 | So does shifting a due item off the heap. |
| `RetryQueues.TimeBKeeps` | internal/lim/retry_queue.go:92-95 | The key of a shifted item leads to that very item, or to none when it has been acknowledged in between, and then it does not time out. |
| `RetryQueues.StartAgrees` | internal/lim/retry_queue.go:41-51 | A start keeps them in agreement if and only if no item with its key is filed, on the heap or timing out. |
| `RetryQueues.AckInsideStart` | internal/lim/retry_queue.go:28-82 | On any queue: an acknowledgement between the two sections of a start leaves the item on the heap without being filed; for an index of 0 the first other delivery leaves the heap for it, or the removal crashes when there is none, and for an index of -1 nothing leaves. |
| `RetryQueues.RetryQueue.StartA` | internal/lim/retry_queue.go:41-51 | First section of a start: the item is filed unless its key is taken, and has its priority; the queue stays in order if and only if the key is free. |
| `RetryQueues.RetryQueue.AddToInFlightPQ` | internal/lim/retry_queue.go:35-40 | The item is added to the heap. |
| `RetryQueues.RetryQueue.StartB` | internal/lim/retry_queue.go:35-40 | Second section: the item is on the heap. |
| `RetryQueues.RetryQueue.FinishA` | internal/lim/retry_queue.go:53-68 | First section of an acknowledgement: the item under the key leaves the map, and nothing happens exactly when there is none; the queue stays in order if and only if its start has returned. |
| `RetryQueues.RetryQueue.RemoveFromInFlightPQ` | internal/lim/retry_queue.go:73-82 | The item in the slot that the index names leaves the heap, whoever it is; none for -1, and a crash for an index outside. |
| `RetryQueues.RetryQueue.FinishB` | internal/lim/retry_queue.go:73-82 | Second section: exactly this item leaves the heap, if a timeout has not taken it already. |
| `RetryQueues.RetryQueue.TimeA` | internal/lim/retry_queue.go:86-91 | First section of a timeout: the earliest item leaves the heap if it is due. |
| `RetryQueues.RetryQueue.TimeB` | internal/lim/retry_queue.go:92-95 | Second section: the item times out exactly when it is still filed. |
| `RetryQueues.RetryQueue.FinishesOwnSlot` | internal/lim/retry_queue.go:73-81 | Whenever the removing section runs, the item's index is its true heap slot, or -1. |
| `RetryQueues.RetryQueue.AcksOwnSlot` | internal/lim/retry_queue.go:62-81 | The index an acknowledgement finds in a filed item is its own slot, or -1 because a timeout has shifted it, if and only if its start has returned; before, a new item has 0, which is not its slot, and a redelivered copy has -1 although it is still to be put on the heap. |
| `RetryScans.Round` | internal/lim/retry_queue.go:86-95 | One round, with acknowledgements between its sections: the earliest item leaves the heap if it is due, and times out if and only if it is not among them; exactly it and the acknowledged ones are filed no more. |
| `RetryScans.ProcessInFlightQueue` | internal/lim/retry_queue.go:84-98 | The whole scan with any acknowledgements in each round: each item handed out was the earliest of what was left, due and not acknowledged in its round; it ends with nothing due left, or at the earliest due item because that is acknowledged in its round; what is filed in the end is named exactly. |
| `RetryScans.ScanHandsOut` | internal/lim/retry_queue.go:84-98 | What it hands out was due, the earliest first, each once; not cut short, that is everything due that was not acknowledged; with no acknowledgement it is not cut short and hands out exactly what was due. |
| `RetryScans.CutIfHit` | internal/lim/retry_queue.go:86-95 | From the priorities and the acknowledgements alone: not cut short if the earliest due item is never acknowledged in its own round, and only then when no two are due at the same time. |
| `RetryScans.EndsWhereHit` | internal/lim/retry_queue.go:86-95 | If in any round the one earliest due item is acknowledged, the scan ends there, and every other item not acknowledged in that round stays filed, due or not. |
| `RetryScans.LeavesDueBehind` | internal/lim/retry_queue.go:84-98 | A run that leaves the second of two due deliveries behind. |
| `RetryRuns.StepKeeps` | internal/lim/retry_queue.go:28-98 | Each section of a start, an acknowledgement and a timeout keeps map, heap and history consistent. |
| `RetryRuns.HistoryInOrder` | internal/lim/retry_queue.go:28-98 | At every moment of every interleaving of any number of calls they are consistent. |
| `RetryRuns.HistoryGrows` | internal/lim/retry_queue.go:28-98 | What has been started, acknowledged or timed out stays so. |
| `RetryRuns.ConsumedOnce` | internal/lim/retry_queue.go:53-98 | In every run each started delivery is at every moment filed, acknowledged or timed out, exactly one of these; one that is acknowledged at any moment times out at none. |
| `RetryRuns.Interleave` | internal/lim/retry_queue.go:28-98 | Running the sections of the queue in any order makes such a run, section by section; and at every moment the index of each item about to leave the heap is its own slot, or -1. |
| `NodeQueues.NodeInFlightQueue.Start` | internal/lim/node_in_flight_pqueue.go:43-65 | The item is on the heap with its priority, and filed unless its number is taken; map and heap hold the same items if and only if it was not. |
| `NodeQueues.NodeInFlightQueue.Finish` | internal/lim/node_in_flight_pqueue.go:67-84 | Exactly the item under this number leaves map and heap. |
| `NodeQueues.NodeInFlightQueue.Deliver` | internal/lim/delivery.go:203-212 | The item is queued again before the call, due the timeout after now, and leaves exactly if the call succeeds; no other item is due at another time than before. |
| `NodeQueues.NodeInFlightQueue.Round` | internal/lim/node_in_flight_pqueue.go:86-99 | A round tries one due item, which is due the timeout after its try then, and one item less is due at t; all others are due when they were. |
| `NodeQueues.NodeInFlightQueue.ProcessInFlightQueue` | internal/lim/node_in_flight_pqueue.go:85-100 | If clock plus timeout is always above t, the scan ends; every due item was tried exactly once, has left if and only if its call succeeded, and is due the timeout after the clock of its try; every item left is due after t, those not tried when they were before. |
| `KeyLocks.Counts` | pkg/keylock/keylock.go:34-46 | Counting a goroutine that is counted nowhere keeps every count equal to its lock's waiters and holder. |
| `KeyLocks.Discounts` | pkg/keylock/keylock.go:52-58 | A leaving goroutine finds the very lock it holds and is counted no more. |
| `KeyLocks.Cleans` | pkg/keylock/keylock.go:65-73 | Locks nobody is counted by can be taken off the map while nobody is in a read section: no waiter or holder loses its own. |
| `KeyLocks.Gives` | pkg/keylock/keylock.go:48 | A free mutex goes to one waiter. |
| `KeyLocks.Releases` | pkg/keylock/keylock.go:59-61 | The mutex that is given back is the one the caller holds. |
| `KeyLocks.KeyLock.LockLookup` | pkg/keylock/keylock.go:32-33 | The read section of Lock up to its lookup. |
| `KeyLocks.KeyLock.LockAdd` | pkg/keylock/keylock.go:34-37 | The rest of it: a lock that was found is counted, otherwise the write section follows. |
| `KeyLocks.KeyLock.LockCreate` | pkg/keylock/keylock.go:38-47 | The write section looks again, makes a new lock under this key only if it is still missing, and counts its waiter. |
| `KeyLocks.KeyLock.Acquire` | pkg/keylock/keylock.go:48 | Lock returns with the mutex of the lock under its key. |
| `KeyLocks.KeyLock.UnlockLookup` | pkg/keylock/keylock.go:53-54 | Unlock finds the very lock its caller holds, although locks are cleaned meanwhile. |
| `KeyLocks.KeyLock.UnlockDone` | pkg/keylock/keylock.go:55-58 | The caller is counted no more. |
| `KeyLocks.KeyLock.Release` | pkg/keylock/keylock.go:59-61 | Releases a locked mutex, the caller's own. |
| `KeyLocks.KeyLock.Clean` | pkg/keylock/keylock.go:65-73 | Removes exactly the locks whose count is 0, which are those nobody waits for or holds. |
| `KeyLocks.KeyLock.CountsItsUsers` | pkg/keylock/keylock.go:99-116 | In every state a lock's count is the number of goroutines that wait for it or hold it and have not left. |
| `KeyLocks.KeyLock.MutualExclusion` | pkg/keylock/keylock.go:31-62 | In every state at most one goroutine is between Lock(k) returning and Unlock(k) being called. |
| `KeyLocks.StepKeeps` | pkg/keylock/keylock.go:31-73 | Each step of `Lock`, `Unlock` and `Clean` keeps locks, goroutines and books consistent. |
| `KeyLocks.HistoryInOrder` | pkg/keylock/keylock.go:31-73 | At every moment of every run they are consistent. |
| `KeyLocks.RunExcludes` | pkg/keylock/keylock.go:31-73 | At no moment of any run of any number of goroutines, with Clean at any moment, are two of them between Lock(k) returning and Unlock(k) being called; the lock a holder will look up is there, and what Unlock has found is the lock its caller holds. |
| `KeyLocks.Interleave` | pkg/keylock/keylock.go:31-73 | Running the methods for any list of steps makes such a run, step by step. |
| `Slots.SlotBitMap.constructor` | pkg/util/bitmap.go:16-24 | As many bytes as the slots need, and no slot set. |
| `Slots.SlotBitMap.SetSlot` | pkg/util/bitmap.go:33-41 | Adds or removes exactly this slot: byte num / 8 is or-ed with 1 << (num % 8), or cleared of it, and no other byte changes. |
| `Slots.SlotBitMap.GetSlot` | pkg/util/bitmap.go:51-55 | Whether the slot is owned: whether bit num % 8 of byte num / 8, shifted down, is 1. |
| `Slots.SlotIsBit` | pkg/util/bitmap.go:33-55 | A slot is a bit: slot s is owned if and only if byte s / 8 shifted down by s % 8 ends in 1. |
| `Slots.SlotBitMap.GetVaildSlotNum` | pkg/util/bitmap.go:74-86 | The number of slots owned. |
| `Slots.SlotBitMap.GetVaildSlots` | pkg/util/bitmap.go:89-101 | Exactly the slots s for which byte s / 8 shifted down by s % 8 ends in 1, in strictly rising order. |
| `Slots.ExportByte` | pkg/util/bitmap.go:111-125 | Of one byte, the highest set bits move over, as many as wanted and there are. |
| `Slots.SlotBitMap.ExportSlots` | pkg/util/bitmap.go:104-128 | Moves exactly min(k, owned) slots, all above every slot that stays; moved and kept are disjoint and together the original. |
| `Slots.SlotBitMap.CleanSlots` | pkg/util/bitmap.go:131-143 | For bitmaps of any lengths: takes away exactly the given slots as they stand when the two ends are aligned; byte by byte, each is cleared of the given byte at the same distance from the end. |
| `Slots.CleanedSlots` | pkg/util/bitmap.go:131-143 | What the loop computes byte by byte is, for any lengths, the owned slots without the given ones aligned at the end. |
| `Slots.CleansGivenSlots` | pkg/util/bitmap.go:131-143 | That is the set difference if and only if each owned slot is given exactly when it is after the alignment, as for equal lengths. |
| `Slots.CleansAnotherSlot` | pkg/util/bitmap.go:131-143 | Cleaning slot 0, given in a shorter bitmap, takes slot 8 away and leaves slot 0. |
| `Slots.SlotBitMap.MergeSlots` | pkg/util/bitmap.go:146-163 | Adds exactly the slots of the given bitmaps that lie within this one. |
| `Slots.ExportThenMerge` | pkg/util/bitmap.go:104-163 | Merging what was exported restores the bitmap bit for bit. |
| `Slots.ExportIsClean` | pkg/util/bitmap.go:104-143 | Cleaning an equal copy of what was exported gives the bits exporting left. |
| `Slots.SlotsContains` | pkg/util/bitmap.go:166-184 | Set inclusion for bitmaps of one length, false when the second is longer, an index out of range when it is shorter and contained. |
| `Slots.SlotsDetermine` | pkg/util/bitmap.go:89-101 | Bitmaps of one length are equal when they have the same slots. |
| `Clients.ClientWithIs` | internal/lim/client_manager.go:108-119 | While the maps agree, looking a device up finds its registered client, and nothing if and only if there is none. |
| `Clients.ResolveList` | internal/lim/client_manager.go:70-90 | While the maps agree, a user's list gives exactly the registered clients of its ids, in its order. |
| `Clients.LookupIs` | internal/lim/client_manager.go:108-119 | While the registry is in order, looking a device up gives a client if and only if this one is registered for it. |
| `Clients.ClientManager.Add` | internal/lim/client_manager.go:24-35 | Registers the client under its id and adds the id at the end of its user's list; no other user's list changes. |
| `Clients.ClientManager.Remove` | internal/lim/client_manager.go:47-67 | Unregisters the id and takes its first occurrence out of the user's list. |
| `Clients.ClientManager.GetClientsWithUID` | internal/lim/client_manager.go:70-90 | The registered clients of the user's list, in its order. |
| `Clients.ClientManager.GetClientWith` | internal/lim/client_manager.go:108-119 | The first of them with this device flag. |
| `Clients.ClientManager.GetOnlineUIDs` | internal/lim/client_manager.go:93-105 | Exactly the asked users that have a list. |
| `Clients.OnlineUsers` | internal/lim/client_manager.go:93-105 | For a user this is the truth if and only if the user's list is not an empty one. |
| `Clients.StaysOnline` | internal/lim/client_manager.go:93-105 | A user all of whose clients have left is still given as online. |
| `Clients.AddAgrees` | internal/lim/client_manager.go:24-35 | Adding a new id keeps the two maps in agreement. |
| `Clients.RemoveAgrees` | internal/lim/client_manager.go:47-67 | So does removing a registered one. |
| `Clients.ConnectKeeps` | internal/lim/handler.go:122-148 | A connect of a new connection, or of one registered for the same device, keeps agreement, uniqueness and the reported events. |
| `Clients.ConnectBreaks` | internal/lim/handler.go:122-139 | A connect of a connection that is registered for another device breaks the agreement. |
| `Clients.DisconnectKeeps` | internal/lim/handler.go:152-164 | Nobody else is registered for the device then, so that it is reported offline, rightly. |
| `Clients.ClientManager.HandleConnect` | internal/lim/handler.go:122-148 | After an accepted connect the client is registered and Online reported. From a registry in order, when the connection is new or was registered for the same device: no other client of the device is registered, exactly the clients of other devices stay, unchanged, looking its device up finds it and looking any other up finds what it did; the registry stays in order if and only if that holds of the connection. |
| `Clients.ClientManager.HandleDisconnect` | internal/lim/handler.go:152-164 | Exactly this client goes. From a registry in order: Offline is reported exactly when it was registered, its device is found no more, and looking any other up finds what it did; the registry stays in order. |
| `Clients.ConnectedInOrder` | internal/lim/handler.go:122-148 | A connect keeps agreement, uniqueness and the reported events if and only if the connection is new or was registered for the same device. |
| `Clients.DisconnectedInOrder` | internal/lim/handler.go:152-164 | A disconnect always keeps them, and reports Offline exactly when the client was registered. |
| `Clients.ConnectedRegisters` | internal/lim/handler.go:122-139 | After a proper connect a client is registered if and only if it is the one that has connected, or was registered before for another device. |
| `Clients.ConnectedFinds` | internal/lim/handler.go:122-139 | Looking a device up then finds the client that has connected for it, or for any other device what it found before. |
| `Clients.DisconnectedFinds` | internal/lim/handler.go:152-164 | After a disconnect the device of the client is found no more, and any other as before. |
| `Clients.RunInOrder` | internal/lim/handler.go:122-164 | All along a run the maps agree, a device has one client at most, and its last event is Online exactly when it has one, if and only if no connection connects again for another device. |
| `Clients.RunRegisters` | internal/lim/handler.go:122-164 | At every moment of such a run a client is registered if and only if it has connected and has neither disconnected nor had its device connect again since. |
| `Clients.Run` | internal/lim/handler.go:122-164 | The handlers, called for any list of connects and disconnects, bring the registry and its events to the state these say. |
| `Paging.Upward` | internal/lim/storage_file.go:165-190 | Of what the log gives from the number above the offset, the filter loop keeps the messages below the end. |
| `Paging.LogGives` | internal/db/db_file_public.go:430-449 | What the log gives from a number on is what reading the topic gives: the numbers from there on, or from the next one on for an index key, up to the limit. |
| `Paging.PageIsWindow` | internal/lim/storage_file.go:165-190 | The upward page is the first `limit` messages of the open window if and only if the number above the offset is no index key or there is nothing to find; at the offset 2^32 - 1 the start wraps to 0, and it is right if and only if nothing is found. |

## Left out

- LogTopic.Topic.AppendLog: assumes message numbers below 2^32, and segmentMaxBytes + LogMaxSize + 24 below 2^32, which the default of 1 GiB meets; beyond it positions in the index would wrap.
- LogTopic.Topic.ReadLogs: rolled segments are read through a handle opened on their files each time; the LRU cache of handles, and a second handle on the active segment whose visible size is fixed at its opening, are not part of the model.
- LogSegment.Segment.Check: the copy of the damaged file made before it is cut is not modelled.
- Incoming.OnPacket: statistics and the handling of each packet type are not modelled; a loop that would go round forever is an outcome of its own.
- Protocol.DecodeLength: the bits of a digit are added to the sum, which is the same as the source's bitwise or because the shifted digits do not overlap.
- RetryRuns.Interleave: a section that would break the queue (a start under a key in use, an acknowledgement inside a start) is skipped, because what follows is stated apart; each section runs as one step, as the mutex makes it.
- RetryScans.ProcessInFlightQueue: acknowledgements run between the sections of a round, each as a whole; starts run elsewhere.
- NodeQueues.NodeInFlightQueue.ProcessInFlightQueue: no call from outside runs in between; the stored backlog at start and `Stop` are not modelled.
- KeyLocks.KeyLock.Clean: the timer loop around it is not modelled; fairness of the mutexes is not either.
- LogBackup.BackupMessages: one topic's files; the list of slots and topics, and the base data in front of the messages, are not modelled.
- LogRecover.RecoverMessages: the reader is an in-memory one, which gives as many bytes as it has; appending the recovered messages to their topics is the topic's own `AppendLog`.
- Clients.ClientManager.HandleConnect: the checks that come before the registry (node, token, keys) are one parameter; the two maps are updated without interruption.
- Paging.Upward: the log is numbered from 1 without gaps and holds messages that decode; limits for which the source could not even allocate the result are not told apart; the downward page is not modelled.
- Slots.SlotBitMap.CleanSlots: `SetSlotForRange`, `Reset` and the formatting of slots would only add easy members.
- Directory discovery of segments, `Topic.ReadLogAt`, rebuilding or truncating an index.
- Packets read straight from a connection (`DecodePacketWithConn`), which the server does not use for its clients.
- AES, DH, MD5, JSON, CRC values, webhooks, conversations and the user cursor: foreign libraries or bookkeeping without an invariant of their own.
