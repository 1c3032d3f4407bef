/** A topic: rolled segments on disk and an active one, read as one log. */
module LogTopic {
  import opened Bytes
  import opened LogRecord
  import opened LogIndex
  import opened LogSegment
  import opened FlatLog
  import opened Options

  datatype TopicReads = Read(out: Reads) | NoBase

  ghost predicate LogsBelow(files: seq<SegmentFiles>, bound: nat) {
    forall f {:trigger f in files} :: f in files ==> |f.log| < bound
  }

  lemma LogsBelowMore(files: seq<SegmentFiles>, f: SegmentFiles, bound: nat)
    requires LogsBelow(files, bound) && |f.log| < bound
    ensures LogsBelow(files + [f], bound)
  {
  }

  class Topic {
    const segmentMaxBytes: nat
    var segments: seq<int>
    /** The files of the rolled segments, which nothing writes again, and the segment appended to. */
    var files: seq<SegmentFiles>
    var activeSegment: Segment
    var lastSeq: u32
    var lastMemLog: Option<Record>
    /** The records of each segment. */
    ghost var parts: seq<seq<Record>>

    ghost predicate Active()
      reads this, activeSegment, activeSegment.index, activeSegment.index.mmap
    {
      && activeSegment.Valid() && activeSegment.index.Blank() && activeSegment.cuts == {}
      && activeSegment.position == |activeSegment.file| < segmentMaxBytes + LOG_MAX_SIZE + MIN_LEN
    }

    ghost predicate Valid()
      reads this, activeSegment, activeSegment.index, activeSegment.index.mmap
    {
      var n := |files|;
      && |segments| == |parts| == n + 1
      && Layout(segments, parts)
      && (forall i {:trigger files[i]} :: 0 <= i < n ==> OnDisk(files[i], segments[i], parts[i], {}))
      && LogsBelow(files, segmentMaxBytes + LOG_MAX_SIZE + MIN_LEN)
      && Active() && activeSegment.baseOffset == segments[n] && activeSegment.recs == parts[n]
      && 0 < segmentMaxBytes && segmentMaxBytes + LOG_MAX_SIZE + MIN_LEN < TWO32
      && segments[0] == 0
      && match lastMemLog
         case None => n == 0 && parts == [[]]
         case Some(log) => segments[n] <= log.offset && Below(parts[n], log.offset + 1)
    }

    constructor (segmentMaxBytes: nat)
      requires 0 < segmentMaxBytes && segmentMaxBytes + LOG_MAX_SIZE + MIN_LEN < TWO32
      ensures Valid() && fresh(activeSegment) && fresh(activeSegment.index) && fresh(activeSegment.index.mmap)
      ensures parts == [[]] && lastSeq == 0
    {
      this.segmentMaxBytes := segmentMaxBytes;
      var sg := new Segment(0);
      segments, files, activeSegment := [0], [], sg;
      lastSeq, lastMemLog := 0, None;
      parts := [[]];
    }

    /** `roll`: a new empty segment based at the record to come. */
    method Roll(offset: int)
      requires Valid() && lastMemLog.Some?
      requires segments[|files|] < offset <= lastMemLog.value.offset && Below(parts[|files|], offset)
      modifies this
      ensures Valid()
      ensures segments == old(segments) + [offset] && parts == old(parts) + [[]]
      ensures Joined(parts) == old(Joined(parts)) && activeSegment.position == 0
      ensures lastMemLog == old(lastMemLog) && lastSeq == old(lastSeq)
      ensures fresh(activeSegment) && fresh(activeSegment.index) && fresh(activeSegment.index.mmap)
    {
      LayoutRolls(segments, parts, offset);
      JoinedRolls(parts);
      activeSegment.LeavesFiles(true);
      var rolled := activeSegment.Files(true);
      LogsBelowMore(files, rolled, segmentMaxBytes + LOG_MAX_SIZE + MIN_LEN);
      var segment := new Segment(offset);
      files, activeSegment, segments, parts := files + [rolled], segment, segments + [offset], parts + [[]];
    }

    /** The record goes to the end of the active segment, which stays within its bound. */
    method StoreActive(log: Record) returns (r: Append)
      requires Active() && activeSegment.position < segmentMaxBytes && segmentMaxBytes + LOG_MAX_SIZE + MIN_LEN < TWO32
      requires 0 <= activeSegment.baseOffset <= log.offset < 0x1_0000_0000
      requires activeSegment.recs != [] ==> activeSegment.recs[|activeSegment.recs| - 1].offset < log.offset
      modifies activeSegment, activeSegment.index, activeSegment.index.mmap
      ensures Active()
      ensures r == if |log.data| > LOG_MAX_SIZE then TooLarge else Appended(MIN_LEN + |log.data|)
      ensures activeSegment.recs == old(activeSegment.recs) + if r.TooLarge? then [] else [log]
      ensures Orderly(activeSegment.recs, activeSegment.baseOffset)
    {
      r := activeSegment.AppendLog(log);
    }

    method AppendActive(log: Record) returns (r: Append)
      requires Valid() && lastMemLog == Some(log) && 0 <= log.offset < 0x1_0000_0000
      requires Below(parts[|files|], log.offset) && activeSegment.position < segmentMaxBytes
      modifies `parts, activeSegment, activeSegment.index, activeSegment.index.mmap
      ensures Valid()
      ensures r == if |log.data| > LOG_MAX_SIZE then TooLarge else Appended(MIN_LEN + |log.data|)
      ensures Joined(parts) == old(Joined(parts)) + if r.TooLarge? then [] else [log]
    {
      var n := |files|;
      ghost var more := if |log.data| > LOG_MAX_SIZE then [] else [log];
      assert segments[0] <= segments[n];
      r := StoreActive(log);
      ghost var grown := parts[n] + more;
      assert activeSegment.recs == grown;
      LastGrows(segments, parts, n, log, more);
      parts := parts[n := grown];
    }

    /** The newest record is kept in memory, and its number is the last one. */
    method Remember(log: Record)
      requires Valid() && 0 <= log.offset < 0x1_0000_0000 && !Seen(log.offset)
      modifies `lastMemLog, `lastSeq
      ensures Valid() && lastMemLog == Some(log)
      ensures lastSeq == if old(lastSeq) < log.offset then log.offset else old(lastSeq)
      ensures Below(parts[|files|], log.offset)
    {
      lastMemLog := Some(log);
      if lastSeq < log.offset {
        lastSeq := log.offset;
      }
    }

    /** A full segment holds a record, so its base lies below every offset that may follow. */
    lemma FullAboveBase(offset: int)
      requires Valid() && Below(parts[|files|], offset) && activeSegment.position > 0
      ensures segments[|files|] < offset
    {
      var rs := parts[|files|];
      OrderlyAll(rs, segments[|files|]);
      assert rs[0].offset < offset;
    }

    method RollIfFull(offset: int)
      requires Valid() && lastMemLog.Some? && offset <= lastMemLog.value.offset && Below(parts[|files|], offset)
      modifies this
      ensures Valid() && Below(parts[|files|], offset) && activeSegment.position < segmentMaxBytes
      ensures segments == old(segments) + (if old(activeSegment.position) >= segmentMaxBytes then [offset] else [])
      ensures Joined(parts) == old(Joined(parts)) && lastMemLog == old(lastMemLog) && lastSeq == old(lastSeq)
      ensures activeSegment != old(activeSegment) ==>
                fresh(activeSegment) && fresh(activeSegment.index) && fresh(activeSegment.index.mmap)
    {
      activeSegment.IndexHasRoom();
      if activeSegment.index.position >= MAX_BYTES || activeSegment.position >= segmentMaxBytes {
        FullAboveBase(offset);
        Roll(offset);
      }
    }

    method AppendLog(log: Record) returns (r: Append)
      requires Valid() && 0 <= log.offset < 0x1_0000_0000
      modifies this, activeSegment, activeSegment.index, activeSegment.index.mmap
      ensures Valid()
      ensures old(Seen(log.offset)) ==> r == Appended(0) && unchanged(this) && unchanged(activeSegment)
      ensures !old(Seen(log.offset)) ==>
        && r == (if |log.data| > LOG_MAX_SIZE then TooLarge else Appended(MIN_LEN + |log.data|))
        && lastMemLog == Some(log)
        && lastSeq == (if old(lastSeq) < log.offset then log.offset else old(lastSeq))
        && segments == old(segments) + (if old(activeSegment.position) >= segmentMaxBytes then [log.offset] else [])
        && Joined(parts) == old(Joined(parts)) + if r.TooLarge? then [] else [log]
      ensures activeSegment != old(activeSegment) ==>
              fresh(activeSegment) && fresh(activeSegment.index) && fresh(activeSegment.index.mmap)
    {
      if lastMemLog.Some? && lastMemLog.value.offset >= log.offset {
        return Appended(0);
      }
      Remember(log);
      RollIfFull(log.offset);
      r := AppendActive(log);
    }

    ghost predicate Seen(offset: int)
      reads this
    {
      lastMemLog.Some? && lastMemLog.value.offset >= offset
    }

    // ---------- reading ----------

    /** `getOrNewSegment`, for the base of segment `i` */
    method Handle(i: nat) returns (s: Segment)
      requires Valid() && i < |segments|
      ensures s.Valid() && s.baseOffset == segments[i] && s.recs == parts[i]
      ensures forall t :: s.KeyOf(t) <==> KeyIn(i, t)
    {
      if i == |files| {
        s := activeSegment;
      } else {
        assert OnDisk(files[i], segments[i], parts[i], {});
        s := OpenSegment(files[i], segments[i], parts[i], {});
        SparseReopened(parts[i], segments[i], {}, |parts[i]|);
      }
    }

    ghost predicate KeyIn(i: nat, t: int)
      requires i < |segments| == |parts|
      reads this
    {
      IsKey(Sparse(parts[i], segments[i], {}), segments[i], t)
    }

    /** `baseOffset`: the index of the segment whose base it returns */
    method BaseOffset(offset: int) returns (found: bool, i: nat)
      requires |segments| > 0 && segments[0] == 0 && Ascending(segments)
      ensures found ==> IsChosen(segments, offset, i)
      ensures found <==> offset >= 0
    {
      i := 0;
      while i < |segments|
        invariant i <= |segments|
        invariant forall k :: 0 <= k < i ==> !Covers(segments, offset, k)
      {
        if i + 1 < |segments| {
          if offset >= segments[i] && offset <= segments[i + 1] {
            return true, i;
          }
        } else if offset >= segments[i] {
          return true, i;
        }
        i := i + 1;
      }
      if offset >= 0 {
        var c := SomeCovers(segments, offset, 0);
      }
      return false, 0;
    }

    /** `nextBaseOffset`: the index of the segment after the one with this base */
    method NextBaseOffset(base: int, ghost at: nat) returns (found: bool, next: nat)
      requires Ascending(segments) && at < |segments| && segments[at] == base
      ensures found <==> at + 1 < |segments|
      ensures found ==> next == at + 1
    {
      var i := 0;
      found, next := false, 0;
      while segments[i] != base
        invariant i <= at
        decreases |segments| - i
      {
        i := i + 1;
      }
      assert i == at;
      if i + 1 < |segments| {
        found, next := true, i + 1;
      }
    }

    /** The first records of segment `i`. */
    method ReadHead(i: nat, limit: nat, accepts: seq<byte> -> bool) returns (r: Reads)
      requires Valid() && i < |segments|
      ensures r == HandedOut(Take(Datas(parts[i]), limit), accepts)
    {
      var s := Handle(i);
      r := s.ReadLogsAtPosition(0, limit, accepts, 0);
      assert s.recs[0..] == parts[i];
    }

    /** One round of the loop below: the records of the next segment, as far as they are still wanted. */
    method ReadNext(i: nat, at: nat, read: seq<seq<byte>>, limit: nat, accepts: seq<byte> -> bool,
                    ghost sel: seq<Record>)
      returns (more: bool, next: nat, out: Reads)
      requires Valid() && i <= at < |segments| && |read| < limit && AllAccepted(read, accepts)
      requires read == Take(Datas(Through(sel, parts, i, at)), limit)
      ensures more <==> at + 1 < |segments|
      ensures more ==> next == at + 1 && out == HandedOut(Take(Datas(Through(sel, parts, i, next)), limit), accepts)
    {
      out := Logs(read);
      more, next := NextBaseOffset(segments[at], at);
      if more {
        var rest := ReadHead(next, limit - |read|, accepts);
        HandsOutNext(sel, parts, i, at, limit, accepts, read, rest);
        out := Behind(read, rest);
      }
    }

    /** The loop over the later segments, each read from its start, while records are missing. */
    method ReadRemaining(i: nat, first: seq<seq<byte>>, limit: u64, accepts: seq<byte> -> bool, ghost sel: seq<Record>)
      returns (r: Reads)
      requires Valid() && i < |segments| && first == Take(Datas(sel), limit) && AllAccepted(first, accepts)
      ensures r == HandedOut(if SignedLimit(limit) < 0 then first
                             else Take(Datas(sel + Joined(parts[i + 1..])), limit), accepts)
    {
      var at, read := i, first;
      assert Through(sel, parts, i, i) == sel;
      while |read| < SignedLimit(limit)
        invariant i <= at < |segments|
        invariant read == Take(Datas(Through(sel, parts, i, at)), limit) && AllAccepted(read, accepts)
        invariant SignedLimit(limit) < 0 ==> read == first
        decreases |segments| - at
      {
        var more, next, out := ReadNext(i, at, read, limit, accepts, sel);
        if !more {
          break;
        }
        if !out.Logs? {
          StopsWithin(sel, i, next, limit, accepts);
          return out;
        }
        HandsOutAll(Take(Datas(Through(sel, parts, i, next)), limit), accepts);
        read, at := out.logs, next;
      }
      if SignedLimit(limit) >= 0 {
        CollectDone(sel, parts, i, at, limit);
      }
      HandsOutAll(read, accepts);
      r := Logs(read);
    }

    /** A callback that fails within the segments up to `at` fails there whatever comes behind. */
    lemma StopsWithin(sel: seq<Record>, i: nat, at: nat, limit: nat, accepts: seq<byte> -> bool)
      requires i <= at < |parts| && !HandedOut(Take(Datas(Through(sel, parts, i, at)), limit), accepts).Logs?
      ensures HandedOut(Take(Datas(Through(sel, parts, i, at)), limit), accepts)
           == HandedOut(Take(Datas(sel + Joined(parts[i + 1..])), limit), accepts)
    {
      CollectPrefix(sel, parts, i, at, limit);
      HandsOutPrefix(Take(Datas(Through(sel, parts, i, at)), limit),
                     Take(Datas(sel + Joined(parts[i + 1..])), limit), accepts);
    }

    lemma StopsAtFirst(sel: seq<Record>, i: nat, limit: nat, accepts: seq<byte> -> bool)
      requires i < |parts| && !HandedOut(Take(Datas(sel), limit), accepts).Logs?
      ensures HandedOut(Take(Datas(sel), limit), accepts)
              == HandedOut(Take(Datas(sel + Joined(parts[i + 1..])), limit), accepts)
    {
      assert Through(sel, parts, i, i) == sel;
      StopsWithin(sel, i, i, limit, accepts);
    }

    /** The offset is no index key of this segment and does not fall between two of its records. */
    ghost predicate ReadsPlainly(i: nat, offset: int)
      requires i < |segments| == |parts|
      reads this
    {
      !KeyIn(i, offset) && (offset == segments[i] || Stored(parts[i], offset) || From(parts[i], offset) == [])
    }

    /** No segment, rolled or active, passes its limit by more than one record. */
    lemma SegmentsBounded(i: nat)
      requires Valid() && i < |segments|
      ensures |Flat(parts[i])| < segmentMaxBytes + LOG_MAX_SIZE + MIN_LEN
    {
      if i < |files| {
        assert OnDisk(files[i], segments[i], parts[i], {}) && files[i] in files;
      }
    }

    /** Off the index keys and outside the gaps a read gives the data of the flat log. */
    lemma ReadsFlat(offset: int, limit: nat, i: nat)
      requires Valid() && IsChosen(segments, offset, i)
      requires ReadsPlainly(i, offset)
      ensures Take(Datas(Given(segments, parts, i, KeyIn(i, offset), offset)), limit)
           == Take(Datas(From(Joined(parts), offset)), limit)
    {
      SegmentsBounded(i);
      ReadDataIsFlat(segments, parts, {}, offset, i, KeyIn(i, offset), limit);
    }

    /** The rest of the chosen segment, then every later segment, up to the limit or to where the callback fails. */
    method ReadFrom(offset: int, limit: u64, accepts: seq<byte> -> bool) returns (r: TopicReads, ghost i: nat)
      requires Valid()
      ensures r == NoBase <==> offset < 0
      ensures offset >= 0 ==> IsChosen(segments, offset, i)
      ensures offset >= 0 && SignedLimit(limit) >= 0 ==>
                r == Read(HandedOut(Take(Datas(Given(segments, parts, i, KeyIn(i, offset), offset)), limit), accepts))
      ensures offset >= 0 && SignedLimit(limit) < 0 ==>
                r == Read(HandedOut(Take(Datas(Selected(parts[i], segments[i], KeyIn(i, offset), offset)), limit),
                                    accepts))
    {
      var found, at := BaseOffset(offset);
      i := at;
      if !found {
        return NoBase, i;
      }
      ghost var sel := Selected(parts[i], segments[i], KeyIn(i, offset), offset);
      var s := Handle(at);
      var first := s.ReadLogs(offset, limit, accepts);
      if !first.Logs? {
        StopsAtFirst(sel, i, limit, accepts);
        return Read(first), i;
      }
      HandsOutAll(Take(Datas(sel), limit), accepts);
      var out := ReadRemaining(at, first.logs, limit, accepts, sel);
      r := Read(out);
    }

    /**
     `ReadLogs`: off the index keys and outside the gaps the first `limit` records of the flat log from `offset` on.
     */
    method ReadLogs(offset: int, limit: u64, accepts: seq<byte> -> bool) returns (r: TopicReads, ghost i: nat)
      requires Valid()
      ensures r == NoBase <==> offset < 0
      ensures offset >= 0 ==> IsChosen(segments, offset, i)
      ensures offset >= 0 && SignedLimit(limit) >= 0 ==>
                r == Read(HandedOut(Take(Datas(Given(segments, parts, i, KeyIn(i, offset), offset)), limit), accepts))
      ensures offset >= 0 && SignedLimit(limit) < 0 ==>
                r == Read(HandedOut(Take(Datas(Selected(parts[i], segments[i], KeyIn(i, offset), offset)), limit),
                                    accepts))
      ensures offset >= 0 && SignedLimit(limit) >= 0 && ReadsPlainly(i, offset) ==>
                r == Read(HandedOut(Take(Datas(From(Joined(parts), offset)), limit), accepts))
    {
      r, i := ReadFrom(offset, limit, accepts);
      if offset >= 0 && ReadsPlainly(i, offset) {
        ReadsFlat(offset, limit, i);
      }
    }

    /** The log is numbered 1, 2, ..., and the last number given out is that of its last record. */
    ghost predicate Numbered()
      reads this
    {
      Dense(Joined(parts)) && lastSeq == |Joined(parts)| && (lastMemLog.Some? ==> lastMemLog.value.offset <= lastSeq)
    }

    /** The number that reading the last `limit` records starts from, and how many records it asks for. */
    function StartOfLast(limit: u64): nat
      reads `lastSeq
    {
      if lastSeq < limit then 0 else lastSeq - limit + 1
    }

    function CountOfLast(limit: u64): u64
      reads `lastSeq
    {
      if lastSeq < limit then lastSeq + 1 else limit
    }

    lemma LastLogs(limit: u64, i: nat)
      requires Valid() && Numbered() && IsChosen(segments, StartOfLast(limit), i)
      ensures Take(Datas(Given(segments, parts, i, KeyIn(i, StartOfLast(limit)), StartOfLast(limit))),
                   CountOfLast(limit))
           == Datas(Joined(parts)[FirstOfLast(lastSeq, limit, KeyIn(i, StartOfLast(limit)))..])
    {
      SegmentsBounded(i);
      LastDatas(segments, parts, i, KeyIn(i, StartOfLast(limit)), lastSeq, limit, StartOfLast(limit),
                CountOfLast(limit));
    }

    /** `ReadLastLogs`: on a log numbered without gaps the last `limit` records, but for one that is an index key. */
    method ReadLastLogs(limit: u64, accepts: seq<byte> -> bool) returns (r: TopicReads, ghost i: nat)
      requires Valid()
      ensures var start := StartOfLast(limit);
              && i == Chosen(segments, start, 0) && IsChosen(segments, start, i)
              && r == Read(HandedOut(Take(Datas(Given(segments, parts, i, KeyIn(i, start), start)), CountOfLast(limit)),
                                     accepts))
      ensures Numbered() ==>
                r == Read(HandedOut(Datas(Joined(parts)[FirstOfLast(lastSeq, limit, KeyIn(i, StartOfLast(limit)))..]),
                                    accepts))
    {
      r, i := ReadFromLast(limit, accepts);
      if Numbered() {
        LastLogs(limit, i);
      }
    }

    method ReadFromLast(limit: u64, accepts: seq<byte> -> bool) returns (r: TopicReads, ghost i: nat)
      requires Valid()
      ensures var start := StartOfLast(limit);
              && i == Chosen(segments, start, 0) && IsChosen(segments, start, i)
              && r == Read(HandedOut(Take(Datas(Given(segments, parts, i, KeyIn(i, start), start)), CountOfLast(limit)),
                                     accepts))
    {
      var actLimit, actOffset := limit, 0;
      if lastSeq < limit {
        actLimit := lastSeq + 1;
      } else {
        actOffset := lastSeq - limit + 1;
      }
      assert actOffset == StartOfLast(limit) && actLimit == CountOfLast(limit) && SignedLimit(actLimit) >= 0;
      r, i := ReadFrom(actOffset, actLimit, accepts);
      ChosenIs(segments, actOffset, i, 0);
    }

    // ---------- a log numbered without gaps ----------

    /** `NextOffset` */
    method NextOffset() returns (n: u32)
      requires Valid()
      modifies `lastSeq
      ensures Valid() && n == lastSeq == (old(lastSeq) + 1) % 0x1_0000_0000
    {
      lastSeq := (lastSeq + 1) % 0x1_0000_0000;
      n := lastSeq;
    }

    /**
     A record appended under the next number. The log stays numbered without gaps exactly when the record is not too
     large: a refused one has used up its number.
     */
    method AppendNext(appliIndex: u64, data: seq<byte>) returns (r: Append)
      requires Valid() && Numbered() && lastSeq < 0xFFFF_FFFF
      modifies this, activeSegment, activeSegment.index, activeSegment.index.mmap
      ensures Valid() && (Numbered() <==> |data| <= LOG_MAX_SIZE) && lastSeq == old(lastSeq) + 1
      ensures Joined(parts)
              == old(Joined(parts)) + if |data| > LOG_MAX_SIZE then [] else [Record(lastSeq, appliIndex, data)]
      ensures activeSegment != old(activeSegment) ==>
              fresh(activeSegment) && fresh(activeSegment.index) && fresh(activeSegment.index.mmap)
    {
      ghost var was := Joined(parts);
      var n := NextOffset();
      var log := Record(n, appliIndex, data);
      assert !Seen(n) && Joined(parts) == was;
      DenseGrows(was, log);
      r := AppendLog(log);
      assert |data| > LOG_MAX_SIZE ==> was + [] == was;
    }

    method AppendOne(data: seq<byte>)
      requires Valid() && Numbered() && lastSeq < 0xFFFF_FFFF && |data| <= LOG_MAX_SIZE
      modifies this, activeSegment, activeSegment.index, activeSegment.index.mmap
      ensures Valid() && Numbered() && lastSeq == old(lastSeq) + 1
      ensures Datas(Joined(parts)) == old(Datas(Joined(parts))) + [data]
      ensures activeSegment != old(activeSegment) ==>
                fresh(activeSegment) && fresh(activeSegment.index) && fresh(activeSegment.index.mmap)
    {
      DatasConcat(Joined(parts), [Record(lastSeq + 1, 0, data)]);
      var r := AppendNext(0, data);
    }

    /** Any run of such appends: the log is numbered without gaps and holds all data in order. */
    method AppendAll(datas: seq<seq<byte>>)
      requires Valid() && Numbered() && lastSeq + |datas| < 0x1_0000_0000
      requires forall d :: d in datas ==> |d| <= LOG_MAX_SIZE
      modifies this, activeSegment, activeSegment.index, activeSegment.index.mmap
      ensures Valid() && Numbered() && Datas(Joined(parts)) == old(Datas(Joined(parts))) + datas
      decreases |datas|
    {
      if datas == [] {
        return;
      }
      ghost var was := Datas(Joined(parts));
      AppendOne(datas[0]);
      AppendAll(datas[1..]);
      FirstAndRest(was, datas);
    }
  }

  /** Go's conversion of the limit to a signed integer, as the loop condition reads it. */
  function SignedLimit(limit: u64): int {
    if limit < 0x8000_0000_0000_0000 then limit else limit - 0x1_0000_0000_0000_0000
  }
}
