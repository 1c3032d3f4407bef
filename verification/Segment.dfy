/** One segment file of the message log with its sparse index. */
module LogSegment {
  import opened Bytes
  import opened Framing
  import opened LogRecord
  import opened LogIndex
  import opened LogRepair

  const INDEX_INTERVAL_BYTES: nat := 4 * 1024

  datatype Append = Appended(n: nat) | TooLarge
  datatype Read = Data(data: seq<byte>) | Missing | EndOfFile
  /** What a read hands out to its callback: all of it, or only so much until the callback fails. */
  datatype Reads = Logs(logs: seq<seq<byte>>) | Refused(logs: seq<seq<byte>>) | ReadError

  // ---------- what a segment may hold ----------

  /** Appended within one segment: small enough, at or above the base, strictly increasing. */
  ghost predicate Orderly(rs: seq<Record>, base: int) {
    rs == [] ||
    var init, r := rs[..|rs| - 1], rs[|rs| - 1];
    && Orderly(init, base)
    && |r.data| <= LOG_MAX_SIZE && base <= r.offset < base + 0x1_0000_0000
    && (init != [] ==> init[|init| - 1].offset < r.offset)
  }

  lemma {:induction false} OrderlyAll(rs: seq<Record>, base: int)
    requires Orderly(rs, base)
    ensures Storable(rs) && Increasing(rs)
    ensures forall i {:trigger rs[i].offset} :: 0 <= i < |rs| ==> base <= rs[i].offset < base + 0x1_0000_0000
  {
    if rs != [] {
      var init, n := rs[..|rs| - 1], |rs| - 1;
      OrderlyAll(init, base);
      forall i | 0 <= i < n
        ensures rs[i].offset < rs[n].offset && |rs[i].data| <= LOG_MAX_SIZE && base <= rs[i].offset
      {
        assert init[i].offset == rs[i].offset && init[i].data == rs[i].data;
        assert i < n - 1 ==> init[i].offset < init[n - 1].offset;
      }
      forall i, j | 0 <= i < j < |rs|
        ensures rs[i].offset < rs[j].offset
      {
        if j < n {
          assert init[i].offset < init[j].offset;
        }
      }
    }
  }

  // ---------- the sparse index as a function of the appends ----------

  /** Bytes written since the last index entry; `cuts` are the record counts at which the file was reopened. */
  ghost function Gap(rs: seq<Record>, cuts: set<nat>): nat {
    if rs == [] || |rs| in cuts then 0
    else
      var g := Gap(rs[..|rs| - 1], cuts);
      (if g > INDEX_INTERVAL_BYTES then 0 else g) + MIN_LEN + |rs[|rs| - 1].data|
  }

  /** The entries written: one for each record whose append found the gap exceeded. */
  ghost function Sparse(rs: seq<Record>, base: int, cuts: set<nat>): seq<Entry> {
    if rs == [] then []
    else
      var init, r := rs[..|rs| - 1], rs[|rs| - 1];
      Sparse(init, base, cuts)
      + if Gap(init, cuts) > INDEX_INTERVAL_BYTES then [EntryFor(r.offset - base, |Flat(rs)|)] else []
  }

  ghost predicate IsKey(es: seq<Entry>, base: int, t: int) {
    exists e :: 0 <= e < |es| && base + es[e].relativeOffset == t
  }

  /** Every entry stands for more than the interval, so the index stays far smaller than the file. */
  lemma {:induction false} SparseBound(rs: seq<Record>, base: int, cuts: set<nat>)
    ensures 4097 * |Sparse(rs, base, cuts)| + Gap(rs, cuts) <= |Flat(rs)|
  {
    if rs != [] {
      SparseBound(rs[..|rs| - 1], base, cuts);
    }
  }

  /** An entry written after record `m` holds that record's offset and the position behind it. */
  lemma {:induction false} EntryRecord(rs: seq<Record>, base: int, cuts: set<nat>, e: nat) returns (m: nat)
    requires Orderly(rs, base) && |Flat(rs)| < TWO32 && e < |Sparse(rs, base, cuts)|
    ensures 1 <= m < |rs|
    ensures base + Sparse(rs, base, cuts)[e].relativeOffset == rs[m].offset
    ensures Sparse(rs, base, cuts)[e].position == Pos(rs, m + 1)
  {
    var n := |rs| - 1;
    var init := rs[..n];
    if e < |Sparse(init, base, cuts)| {
      assert Sparse(rs, base, cuts)[e] == Sparse(init, base, cuts)[e];
      m := EntryRecord(init, base, cuts, e);
      assert init[m] == rs[m];
      PosOfPrefix(rs, n, m + 1);
    } else {
      m := n;
      PosOfAll(rs);
    }
  }

  lemma {:induction false} SparseRises(rs: seq<Record>, base: int, cuts: set<nat>)
    requires Orderly(rs, base) && |Flat(rs)| < TWO32
    ensures Rising(Sparse(rs, base, cuts))
    ensures forall e <- Sparse(rs, base, cuts) :: e.relativeOffset != 0
  {
    var es := Sparse(rs, base, cuts);
    OrderlyAll(rs, base);
    forall e | 0 <= e < |es|
      ensures es[e].relativeOffset != 0
    {
      var m := EntryRecord(rs, base, cuts, e);
      assert rs[0].offset < rs[m].offset;
    }
    forall e, f | 0 <= e < f < |es|
      ensures es[e].relativeOffset < es[f].relativeOffset
    {
      EntriesRise(rs, base, cuts, e, f);
    }
  }

  lemma {:induction false} EntriesRise(rs: seq<Record>, base: int, cuts: set<nat>, e: nat, f: nat)
    requires Orderly(rs, base) && |Flat(rs)| < TWO32 && e < f < |Sparse(rs, base, cuts)|
    ensures Sparse(rs, base, cuts)[e].relativeOffset < Sparse(rs, base, cuts)[f].relativeOffset
  {
    var n := |rs| - 1;
    var init := rs[..n];
    if f < |Sparse(init, base, cuts)| {
      EntriesRise(init, base, cuts, e, f);
    } else {
      var m := EntryRecord(init, base, cuts, e);
      OrderlyAll(rs, base);
      assert init[m].offset == rs[m].offset < rs[n].offset;
    }
  }

  /** An index entry parts the file: what is at or below its offset lies before its position. */
  lemma EntryParts(rs: seq<Record>, base: int, cuts: set<nat>, e: nat, k: nat)
    requires Orderly(rs, base) && |Flat(rs)| < TWO32 && e < |Sparse(rs, base, cuts)| && k < |rs|
    ensures rs[k].offset <= base + Sparse(rs, base, cuts)[e].relativeOffset
            <==> Pos(rs, k) < Sparse(rs, base, cuts)[e].position
  {
    var m := EntryRecord(rs, base, cuts, e);
    OrderlyAll(rs, base);
    RecordParts(rs, m, k);
  }

  lemma RecordParts(rs: seq<Record>, m: nat, k: nat)
    requires Increasing(rs) && m < |rs| && k < |rs|
    ensures rs[k].offset <= rs[m].offset <==> Pos(rs, k) < Pos(rs, m + 1)
  {
    if k <= m {
      PosMonotone(rs, k, m + 1);
    } else {
      PosMonotone(rs, m + 1, k);
    }
  }

  /** Reopening the file resets the gap and keeps the index. */
  lemma {:induction false} SparseReopened(rs: seq<Record>, base: int, cuts: set<nat>, n: nat)
    requires |rs| <= n
    ensures Sparse(rs, base, cuts + {n}) == Sparse(rs, base, cuts)
    ensures Gap(rs, cuts + {n}) == if |rs| == n then 0 else Gap(rs, cuts)
  {
    if rs != [] {
      SparseReopened(rs[..|rs| - 1], base, cuts, n);
    }
  }

  lemma Extended(rs: seq<Record>, base: int, cuts: set<nat>, r: Record)
    requires Orderly(rs, base) && (forall c <- cuts :: c <= |rs|)
    requires |r.data| <= LOG_MAX_SIZE && base <= r.offset < base + 0x1_0000_0000
    requires rs != [] ==> rs[|rs| - 1].offset < r.offset
    ensures Orderly(rs + [r], base)
    ensures |Flat(rs + [r])| == |Flat(rs)| + MIN_LEN + |r.data|
    ensures Gap(rs + [r], cuts)
            == (if Gap(rs, cuts) > INDEX_INTERVAL_BYTES then 0 else Gap(rs, cuts)) + MIN_LEN + |r.data|
    ensures Sparse(rs + [r], base, cuts) == Sparse(rs, base, cuts)
         + if Gap(rs, cuts) > INDEX_INTERVAL_BYTES then [EntryFor(r.offset - base, |Flat(rs)| + MIN_LEN + |r.data|)]
           else []
  {
    var all := rs + [r];
    assert all[..|all| - 1] == rs;
  }

  /** What appending leaves in the index and the interval count is what the longer list of records says. */
  lemma Marked(rs: seq<Record>, base: int, cuts: set<nat>, r: Record, now: seq<Record>, gap: nat, es: seq<Entry>)
    requires Orderly(rs, base) && (forall c <- cuts :: c <= |rs|) && now == rs + [r]
    requires |r.data| <= LOG_MAX_SIZE && base <= r.offset < base + 0x1_0000_0000
    requires rs != [] ==> rs[|rs| - 1].offset < r.offset
    requires gap == (if Gap(rs, cuts) > INDEX_INTERVAL_BYTES then 0 else Gap(rs, cuts)) + MIN_LEN + |r.data|
    requires es == Sparse(rs, base, cuts)
         + if Gap(rs, cuts) > INDEX_INTERVAL_BYTES then [EntryFor(r.offset - base, |Flat(rs)| + MIN_LEN + |r.data|)]
           else []
    ensures Orderly(now, base) && |Flat(now)| == |Flat(rs)| + MIN_LEN + |r.data|
    ensures gap == Gap(now, cuts) && es == Sparse(now, base, cuts)
  {
    Extended(rs, base, cuts, r);
  }

  // ---------- what a read selects ----------

  /** Where `ReadLogs` starts: behind an index key, at the whole file for the base, else at the stored record. */
  ghost function Selected(rs: seq<Record>, base: int, key: bool, t: int): seq<Record> {
    if key then From(rs, t + 1)
    else if t == base then rs
    else if Stored(rs, t) then From(rs, t)
    else []
  }

  lemma KeyIsStored(rs: seq<Record>, base: int, cuts: set<nat>, t: int) returns (m: nat)
    requires Orderly(rs, base) && |Flat(rs)| < TWO32 && IsKey(Sparse(rs, base, cuts), base, t)
    ensures 1 <= m < |rs| && rs[m].offset == t > base
  {
    var e :| 0 <= e < |Sparse(rs, base, cuts)| && base + Sparse(rs, base, cuts)[e].relativeOffset == t;
    m := EntryRecord(rs, base, cuts, e);
    OrderlyAll(rs, base);
    assert rs[0].offset < rs[m].offset;
  }

  /** The accelerated read is the plain one exactly off the index keys and outside the gaps. */
  lemma SelectedIsFrom(rs: seq<Record>, base: int, cuts: set<nat>, t: int)
    requires Orderly(rs, base) && |Flat(rs)| < TWO32 && t >= base
    ensures var key := IsKey(Sparse(rs, base, cuts), base, t);
            Selected(rs, base, key, t) == From(rs, t) <==> !key && (t == base || Stored(rs, t) || From(rs, t) == [])
  {
    OrderlyAll(rs, base);
    var k := FromCut(rs, t);
    if IsKey(Sparse(rs, base, cuts), base, t) {
      var k' := FromCut(rs, t + 1);
      var m := KeyIsStored(rs, base, cuts, t);
      assert rs[m].offset >= t && !(rs[m].offset >= t + 1);
      assert |rs[k'..]| < |rs[k..]|;
    } else if t == base {
      assert rs != [] ==> rs[0].offset >= base;
    }
  }

  /** There are such keys: the second record of a segment is one exactly when the first fills more than the interval. */
  lemma KeyAfterLongRecord(r: Record, s: Record, base: int)
    requires Orderly([r, s], base)
    ensures IsKey(Sparse([r, s], base, {}), base, s.offset) <==> MIN_LEN + |r.data| > INDEX_INTERVAL_BYTES
    ensures Stored([r, s], s.offset)
    ensures Selected([r, s], base, true, s.offset) == [] && From([r, s], s.offset) == [s]
  {
    var rs := [r, s];
    assert rs[..1] == [r] && [r][..0] == [];
    assert Gap([], {}) == 0;
    assert Gap([r], {}) == MIN_LEN + |r.data|;
    assert Sparse([r], base, {}) == [];
    OrderlyAll(rs, base);
    assert rs[1].offset == s.offset && rs[0].offset < rs[1].offset;
    var es := Sparse(rs, base, {});
    if MIN_LEN + |r.data| > INDEX_INTERVAL_BYTES {
      assert base + es[0].relativeOffset == s.offset;
    } else {
      assert es == [];
    }
    FromIs(rs, s.offset, 1);
    FromIs(rs, s.offset + 1, 2);
    assert rs[1..] == [s] && rs[2..] == [];
  }

  lemma SelectedFromPosition(rs: seq<Record>, base: int, key: bool, t: int, j: nat)
    requires Increasing(rs) && j <= |rs|
    requires key ==> forall i {:trigger rs[i].offset} :: 0 <= i < |rs| ==> (rs[i].offset <= t <==> i < j)
    requires !key && t == base ==> j == 0
    requires !key && t != base ==> if j < |rs| then rs[j].offset == t else !Stored(rs, t)
    ensures Selected(rs, base, key, t) == rs[j..]
  {
    if key {
      FromIs(rs, t + 1, j);
    } else if t != base && j < |rs| {
      forall i | 0 <= i < j
        ensures rs[i].offset < t
      {
        assert rs[i].offset < rs[j].offset;
      }
      FromIs(rs, t, j);
    }
  }

  /** The first record from `j` on with offset `t`, or the number of records. */
  ghost function FirstAt(rs: seq<Record>, j: nat, t: int): (k: nat)
    requires j <= |rs|
    ensures j <= k <= |rs|
    ensures forall i :: j <= i < k ==> rs[i].offset != t
    ensures k < |rs| ==> rs[k].offset == t
    decreases |rs| - j
  {
    if j == |rs| || rs[j].offset == t then j else FirstAt(rs, j + 1, t)
  }

  /** Nothing the index skips has the offset looked for, except an index key itself. */
  lemma ScannedFromIndex(rs: seq<Record>, key: bool, j: nat, k: nat, t: int)
    requires Increasing(rs) && j <= k <= |rs|
    requires key ==> Stored(rs, t)
    requires key ==> forall i {:trigger rs[i].offset} :: 0 <= i < |rs| ==> (rs[i].offset <= t <==> i < j)
    requires !key ==> forall i {:trigger rs[i].offset} :: 0 <= i < j ==> rs[i].offset < t
    requires k < |rs| ==> rs[k].offset == t
    requires forall i {:trigger rs[i].offset} :: j <= i < k ==> rs[i].offset != t
    ensures k < |rs| <==> Stored(rs, t) && !key
    ensures k < |rs| ==> FirstAt(rs, 0, t) == k
  {
  }

  /** What the floor entry says about the records before its position. */
  lemma Located(rs: seq<Record>, base: int, cuts: set<nat>, t: int, lo: int) returns (j: nat)
    requires Orderly(rs, base) && |Flat(rs)| < TWO32
    requires IsFloor(Sparse(rs, base, cuts), base, t, lo)
    ensures j <= |rs|
    ensures var op := FloorEntry(Sparse(rs, base, cuts), base, lo); var key := IsKey(Sparse(rs, base, cuts), base, t);
            && op.position == Pos(rs, j)
            && (op.offset == t <==> key || t == base)
            && (key ==> Stored(rs, t))
            && (key ==> forall i {:trigger rs[i].offset} :: 0 <= i < |rs| ==> (rs[i].offset <= t <==> i < j))
            && (!key ==> forall i {:trigger rs[i].offset} :: 0 <= i < j ==> rs[i].offset < t)
            && (t == base ==> !key && j == 0)
  {
    var es := Sparse(rs, base, cuts);
    OrderlyAll(rs, base);
    if IsKey(es, base, t) {
      var m := KeyIsStored(rs, base, cuts, t);
    }
    if lo == -1 {
      j := 0;
    } else {
      var m := EntryRecord(rs, base, cuts, lo);
      j := m + 1;
      SparseRises(rs, base, cuts);
      KeyIsFloor(es, base, t, lo);
      assert rs[0].offset < rs[m].offset;
      forall i | 0 <= i < |rs|
        ensures rs[i].offset <= rs[m].offset <==> i < j
      {
      }
    }
  }

  lemma KeyIsFloor(es: seq<Entry>, base: int, t: int, lo: nat)
    requires lo < |es| && IsFloor(es, base, t, lo)
    requires Rising(es)
    ensures IsKey(es, base, t) <==> base + es[lo].relativeOffset == t
  {
    if IsKey(es, base, t) {
      var e :| 0 <= e < |es| && base + es[e].relativeOffset == t;
      assert e <= lo;
    }
  }

  function DataAt(file: seq<byte>, p: nat): (Read, nat) {
    if p + 15 > |file| then (EndOfFile, 0)
    else
      var end := p + HEADER_LEN + SizeField(file, p);
      if end > |file| then (EndOfFile, 0) else (Data(file[p + HEADER_LEN..end]), end + 1)
  }

  lemma DataOfHeld(file: seq<byte>, p: nat, r: Record)
    requires HoldsAt(file, p, r) && |r.data| < TWO32
    ensures DataAt(file, p) == (Data(r.data), p + MIN_LEN + |r.data|)
  {
    HeldFields(file, p, r);
  }

  lemma ReadsRecord(rs: seq<Record>, base: int, i: nat)
    requires Orderly(rs, base) && i < |rs|
    ensures DataAt(Flat(rs), Pos(rs, i)) == (Data(rs[i].data), Pos(rs, i + 1))
  {
    assert HoldsAt(Flat(rs), Pos(rs, i), rs[i]) && |rs[i].data| <= LOG_MAX_SIZE by {
      OrderlyAll(rs, base);
      FlatHolds(rs);
    }
    DataOfHeld(Flat(rs), Pos(rs, i), rs[i]);
  }

  lemma BeforeEnd(rs: seq<Record>, i: nat)
    requires i <= |rs|
    ensures Pos(rs, i) < |Flat(rs)| <==> i < |rs|
  {
    PosOfAll(rs);
    PosMonotone(rs, i, |rs|);
  }

  /** The data of the first `limit` records from `k` on. */
  ghost function DatasFrom(rs: seq<Record>, k: nat, limit: nat): (ds: seq<seq<byte>>)
    requires k <= |rs|
    ensures |ds| == if limit < |rs| - k then limit else |rs| - k
  {
    Take(Datas(rs[k..]), limit)
  }

  lemma DatasAt(rs: seq<Record>, k: nat, n: nat, limit: nat)
    requires k <= |rs| && n < |DatasFrom(rs, k, limit)|
    ensures DatasFrom(rs, k, limit)[n] == rs[k + n].data
  {
  }

  // ---------- handing records out ----------

  /** How many of these the callback takes before it fails. */
  function Accepted(ds: seq<seq<byte>>, accepts: seq<byte> -> bool): (k: nat)
    ensures k <= |ds| && (k < |ds| ==> !accepts(ds[k]))
    ensures forall i :: 0 <= i < k ==> accepts(ds[i])
  {
    if ds == [] || !accepts(ds[0]) then 0 else 1 + Accepted(ds[1..], accepts)
  }

  function HandedOut(ds: seq<seq<byte>>, accepts: seq<byte> -> bool): Reads {
    var k := Accepted(ds, accepts);
    if k == |ds| then Logs(ds) else Refused(ds[..k])
  }

  ghost predicate AllAccepted(ds: seq<seq<byte>>, accepts: seq<byte> -> bool) {
    forall i {:trigger ds[i]} :: 0 <= i < |ds| ==> accepts(ds[i])
  }

  lemma HandsOutAll(ds: seq<seq<byte>>, accepts: seq<byte> -> bool)
    ensures HandedOut(ds, accepts) == Logs(ds) <==> AllAccepted(ds, accepts)
    ensures HandedOut(ds, accepts).Logs? ==> AllAccepted(ds, accepts)
  {
  }

  /** What a failing callback has been given does not depend on what would have come behind. */
  lemma HandsOutPrefix(ds: seq<seq<byte>>, es: seq<seq<byte>>, accepts: seq<byte> -> bool)
    requires ds <= es && HandedOut(ds, accepts).Refused?
    ensures HandedOut(es, accepts) == HandedOut(ds, accepts)
  {
    var k, l := Accepted(ds, accepts), Accepted(es, accepts);
    assert forall i {:trigger ds[i]} {:trigger es[i]} :: 0 <= i < |ds| ==> ds[i] == es[i];
  }

  /** What has been handed out when `read` was handed out before. */
  function Behind(read: seq<seq<byte>>, r: Reads): Reads {
    match r
    case Logs(logs) => Logs(read + logs)
    case Refused(logs) => Refused(read + logs)
    case ReadError => ReadError
  }

  lemma HandsOutBehind(read: seq<seq<byte>>, ds: seq<seq<byte>>, accepts: seq<byte> -> bool)
    requires AllAccepted(read, accepts)
    ensures HandedOut(read + ds, accepts) == Behind(read, HandedOut(ds, accepts))
  {
    var k, all := Accepted(ds, accepts), read + ds;
    assert forall i {:trigger all[i]} :: 0 <= i < |read| ==> all[i] == read[i];
    assert forall i {:trigger all[i]} :: |read| <= i < |all| ==> all[i] == ds[i - |read|];
    var head := all[..|read| + k];
    assert head == read + ds[..k];
    forall i {:trigger head[i]} | 0 <= i < |head|
      ensures accepts(head[i])
    {
      assert head[i] == all[i];
    }
    if k < |ds| {
      assert all[|read| + k] == ds[k];
      HandsOutUpTo(all, |read| + k, accepts);
    } else {
      assert head == all;
      HandsOutAll(all, accepts);
    }
  }

  lemma AcceptsMore(ds: seq<seq<byte>>, n: nat, accepts: seq<byte> -> bool)
    requires n < |ds| && AllAccepted(ds[..n], accepts) && accepts(ds[n])
    ensures ds[..n] + [ds[n]] == ds[..n + 1] && AllAccepted(ds[..n + 1], accepts)
  {
  }

  lemma HandsOutUpTo(ds: seq<seq<byte>>, n: nat, accepts: seq<byte> -> bool)
    requires n < |ds| && AllAccepted(ds[..n], accepts) && !accepts(ds[n])
    ensures HandedOut(ds, accepts) == Refused(ds[..n])
  {
    var k := Accepted(ds, accepts);
    assert forall i {:trigger ds[i]} :: 0 <= i < n ==> ds[..n][i] == ds[i];
  }

  /** The two files of a segment. */
  datatype SegmentFiles = SegmentFiles(log: seq<byte>, index: seq<byte>)

  ghost predicate OnDisk(f: SegmentFiles, base: int, rs: seq<Record>, cuts: set<nat>) {
    && Orderly(rs, base) && f.log == Flat(rs) && |f.log| < TWO32
    && IsIndexFile(f.index, Sparse(rs, base, cuts))
    && forall c <- cuts :: c <= |rs|
  }

  /** `cut` is the record size; the trigger keeps its definition out of the loop below. */
  ghost predicate CutsRecords(cut: Cutter) {
    forall b {:trigger RecordSize(b)} :: cut(b) == RecordSize(b)
  }

  lemma OneRound(cut: Cutter, b: seq<byte>, p: nat, last: nat)
    requires CutsRecords(cut) && p < |b|
    ensures var n := if |b| - p < 2 || b[p] != MAGIC[0] || b[p + 1] != MAGIC[1] || p + 7 >= |b| then 0
                     else if p + MIN_LEN + U32At(b, p + 3) > |b| then 0
                     else MIN_LEN + U32At(b, p + 3);
            && p + n <= |b|
            && WholeFrom(cut, b, p) == (if n > 0 then WholeFrom(cut, b, p + n) else p)
            && LastFrom(cut, b, p, last) == (if n > 0 then LastFrom(cut, b, p + n, p) else p)
  {
    RecordSizeAt(b, p);
  }

  /** The loop of `check`: where the whole records from `start` on end, and where the last round began. */
  method ScanRecords(file: seq<byte>, start: nat, ghost cut: Cutter) returns (byteOffset: nat, lastMsgStart: nat)
    requires CutsRecords(cut) && start <= |file|
    ensures byteOffset == WholeFrom(cut, file, start) && lastMsgStart == LastFrom(cut, file, start, start)
    ensures start <= byteOffset <= |file|
  {
    var size := |file|;
    byteOffset, lastMsgStart := start, start;
    while byteOffset < size
      invariant start <= byteOffset <= size
      invariant WholeFrom(cut, file, byteOffset) == WholeFrom(cut, file, start)
      invariant LastFrom(cut, file, byteOffset, lastMsgStart) == LastFrom(cut, file, start, start)
    {
      OneRound(cut, file, byteOffset, lastMsgStart);
      lastMsgStart := byteOffset;
      if size - byteOffset < 2 || file[byteOffset] != MAGIC[0] || file[byteOffset + 1] != MAGIC[1] {
        return;
      }
      if byteOffset + 2 + 5 >= size {
        return;
      }
      var dataLen: int := U32At(file, byteOffset + 3);
      if byteOffset + 7 + dataLen + 17 > size {
        return;
      }
      byteOffset := byteOffset + 7 + dataLen + 17;
    }
  }

  class Segment {
    const baseOffset: int
    const index: Index
    var file: seq<byte>
    var position: nat
    var bytesSinceLastIndexEntry: nat
    var totalSize: nat
    /** The records the file holds, and the counts of records at which the file was reopened. */
    ghost var recs: seq<Record>
    ghost var cuts: set<nat>

    /** `getFileSize` */
    function VisibleSize(): nat
      reads this
    {
      if position == 0 then totalSize else position
    }

    ghost predicate Valid()
      reads this, index, index.mmap
    {
      && index.Valid() && index.baseOffset == baseOffset
      && Orderly(recs, baseOffset)
      && file == Flat(recs) && VisibleSize() == |file| < TWO32
      && index.entries == Sparse(recs, baseOffset, cuts)
      && bytesSinceLastIndexEntry == Gap(recs, cuts)
      && forall c <- cuts :: c <= |recs|
    }

    ghost predicate KeyOf(t: int)
      reads this
    {
      IsKey(Sparse(recs, baseOffset, cuts), baseOffset, t)
    }

    constructor (baseOffset: int)
      ensures Valid() && fresh(index) && fresh(index.mmap)
      ensures this.baseOffset == baseOffset && recs == [] && position == 0 && cuts == {} && index.Blank()
    {
      this.baseOffset := baseOffset;
      index := new Index([], baseOffset);
      file, position, bytesSinceLastIndexEntry, totalSize := [], 0, 0, 0;
      recs, cuts := [], {};
    }

    /** The index never fills: its size is far below its limit at every file size a position can hold. */
    lemma IndexHasRoom()
      requires Valid()
      ensures index.position < MAX_BYTES
    {
      SparseBound(recs, baseOffset, cuts);
    }

    method AppendLog(log: Record) returns (r: Append)
      requires Valid() && position == |file|
      requires recs != [] ==> recs[|recs| - 1].offset < log.offset
      requires baseOffset <= log.offset < baseOffset + 0x1_0000_0000
      requires |log.data| <= LOG_MAX_SIZE ==> position + MIN_LEN + |log.data| < TWO32
      modifies this, index, index.mmap
      ensures Valid() && position == |file|
      ensures r == if |log.data| > LOG_MAX_SIZE then TooLarge else Appended(MIN_LEN + |log.data|)
      ensures recs == if r.TooLarge? then old(recs) else old(recs) + [log]
      ensures cuts == old(cuts) && (old(index.Blank()) ==> index.Blank())
    {
      if |log.data| > LOG_MAX_SIZE {
        return TooLarge;
      }
      var n := AppendMarked(log);
      r := Appended(n);
    }

    /** The record is written, then marked in the index if that is due. */
    method AppendMarked(log: Record) returns (n: nat)
      requires Valid() && position == |file|
      requires recs != [] ==> recs[|recs| - 1].offset < log.offset
      requires baseOffset <= log.offset < baseOffset + 0x1_0000_0000
      requires |log.data| <= LOG_MAX_SIZE && position + MIN_LEN + |log.data| < TWO32
      modifies this, index, index.mmap
      ensures Valid() && position == |file| && n == MIN_LEN + |log.data|
      ensures recs == old(recs) + [log] && cuts == old(cuts) && (old(index.Blank()) ==> index.Blank())
    {
      ghost var rs := recs;
      IndexHasRoom();
      n := WriteAndMark(log);
      Marked(rs, baseOffset, cuts, log, recs, bytesSinceLastIndexEntry, index.entries);
    }

    method WriteAndMark(log: Record) returns (n: nat)
      requires file == Flat(recs) && index.Valid() && index.position < MAX_BYTES && index.baseOffset == baseOffset
      modifies this, index, index.mmap
      ensures index.Valid() && (old(index.Blank()) ==> index.Blank())
      ensures file == Flat(recs) && recs == old(recs) + [log] && cuts == old(cuts)
      ensures n == MIN_LEN + |log.data| && position == old(position) + n
      ensures var due := old(bytesSinceLastIndexEntry) > INDEX_INTERVAL_BYTES;
              && bytesSinceLastIndexEntry == (if due then 0 else old(bytesSinceLastIndexEntry)) + n
              && index.entries == old(index.entries) + if due then [EntryFor(log.offset - baseOffset, position)] else []
    {
      n := Write(log);
      MarkIfDue(log.offset, n);
    }

    /** `append` of the wrapped record */
    method Write(log: Record) returns (n: nat)
      requires file == Flat(recs)
      modifies `file, `position, `recs
      ensures n == MIN_LEN + |log.data| && position == old(position) + n
      ensures file == Flat(recs) && recs == old(recs) + [log]
    {
      FlatAppend(recs, log);
      var data := Wrap(log);
      n := |data|;
      file, position, recs := file + data, position + n, recs + [log];
    }

    /** The index entry, once the interval is exceeded: written after the position has advanced. */
    method MarkIfDue(offset: int, n: nat)
      requires index.Valid() && index.position < MAX_BYTES
      modifies `bytesSinceLastIndexEntry, index, index.mmap
      ensures index.Valid() && (old(index.Blank()) ==> index.Blank())
      ensures var due := old(bytesSinceLastIndexEntry) > INDEX_INTERVAL_BYTES;
              && bytesSinceLastIndexEntry == (if due then 0 else old(bytesSinceLastIndexEntry)) + n
              && index.entries
                 == old(index.entries) + if due then [EntryFor(offset - index.baseOffset, position)] else []
    {
      if bytesSinceLastIndexEntry > INDEX_INTERVAL_BYTES {
        index.Append(offset, position);
        bytesSinceLastIndexEntry := 0;
      }
      bytesSinceLastIndexEntry := bytesSinceLastIndexEntry + n;
    }

    /** `readLogDataAtPosition` */
    method ReadLogDataAtPosition(p: nat) returns (r: Read, next: nat)
      ensures (r, next) == DataAt(file, p)
    {
      if p + 15 > |file| {
        return EndOfFile, 0;
      }
      var dataLen := SizeField(file, p);
      if p + HEADER_LEN + dataLen > |file| {
        return EndOfFile, 0;
      }
      return Data(file[p + HEADER_LEN..p + HEADER_LEN + dataLen]), p + HEADER_LEN + dataLen + 1;
    }

    /** The data of record `n`, which starts at `start`, and where the next record starts. */
    method ReadRecord(start: nat, ghost n: nat) returns (d: Read, next: nat)
      requires Valid() && n < |recs| && start == Pos(recs, n)
      ensures d == Data(recs[n].data) && next == Pos(recs, n + 1)
    {
      ReadsRecord(recs, baseOffset, n);
      d, next := ReadLogDataAtPosition(start);
    }

    /** `readLogsAtPosition`, from the start of record `k` */
    method ReadLogsAtPosition(p: nat, limit: nat, accepts: seq<byte> -> bool, ghost k: nat) returns (r: Reads)
      requires Valid() && k <= |recs| && p == Pos(recs, k)
      ensures r == HandedOut(Take(Datas(recs[k..]), limit), accepts)
    {
      var count, start, logs := 0, p, [];
      ghost var ds := DatasFrom(recs, k, limit);
      BeforeEnd(recs, k);
      while start < VisibleSize() && count < limit
        invariant count <= |ds| && logs == ds[..count] && AllAccepted(logs, accepts)
        invariant start == Pos(recs, k + count) && (start < |file| <==> k + count < |recs|)
        decreases |ds| - count
      {
        var d, next := ReadRecord(start, k + count);
        if !d.Data? {
          return ReadError;
        }
        DatasAt(recs, k, count, limit);
        if !accepts(d.data) {
          HandsOutUpTo(ds, count, accepts);
          return Refused(logs);
        }
        AcceptsMore(ds, count, accepts);
        logs, start, count := logs + [d.data], next, count + 1;
        BeforeEnd(recs, k + count);
      }
      HandsOutAll(logs, accepts);
      r := Logs(logs);
    }

    /** Where the index sends a search for `t`: to the start of a record, with nothing above `t` skipped. */
    method Locate(t: int) returns (op: OffsetPosition, ghost j: nat)
      requires Valid()
      ensures j <= |recs| && op.position == Pos(recs, j)
      ensures op.offset == t <==> KeyOf(t) || t == baseOffset
      ensures KeyOf(t) ==> Stored(recs, t)
      ensures KeyOf(t) ==> forall i {:trigger recs[i].offset} :: 0 <= i < |recs| ==> (recs[i].offset <= t <==> i < j)
      ensures !KeyOf(t) ==> forall i {:trigger recs[i].offset} :: 0 <= i < j ==> recs[i].offset < t
      ensures t == baseOffset ==> !KeyOf(t) && j == 0
    {
      SparseRises(recs, baseOffset, cuts);
      ghost var lo;
      op, lo := index.Lookup(t);
      j := Located(recs, baseOffset, cuts, t, lo);
    }

    /** The scan from where the index points ends on the stored record, or at the end of the file. */
    lemma Scan(p: nat, j: nat, t: int) returns (k: nat)
      requires Valid() && j <= |recs| && p == Pos(recs, j)
      ensures j <= k <= |recs|
      ensures k < |recs| ==> recs[k].offset == t
      ensures forall i {:trigger recs[i].offset} :: j <= i < k ==> recs[i].offset != t
      ensures ReadTargetPosition(file, VisibleSize(), p, t)
           == if k < |recs| then At(Pos(recs, k), Pos(recs, k + 1)) else NoData
    {
      OrderlyAll(recs, baseOffset);
      FlatHolds(recs);
      k := FirstAt(recs, j, t);
      ScanFinds(file, recs, j, k, t);
    }

    /** The accelerated read, for every target and limit. */
    method ReadLogs(t: int, limit: nat, accepts: seq<byte> -> bool) returns (r: Reads)
      requires Valid()
      ensures r == HandedOut(Take(Datas(Selected(recs, baseOffset, KeyOf(t), t)), limit), accepts)
    {
      var op, j := Locate(t);
      OrderlyAll(recs, baseOffset);
      if op.offset == t {
        SelectedFromPosition(recs, baseOffset, KeyOf(t), t, j);
        r := ReadLogsAtPosition(op.position, limit, accepts, j);
      } else {
        ghost var k := Scan(op.position, j, t);
        ScannedFromIndex(recs, false, j, k, t);
        SelectedFromPosition(recs, baseOffset, false, t, k);
        match ReadTargetPosition(file, VisibleSize(), op.position, t)
        case NoData => return Logs([]);
        case Broken => return ReadError;
        case At(start, _) => r := ReadLogsAtPosition(start, limit, accepts, k);
      }
    }

    /** `ReadAt` finds every stored record, except one whose offset is an index key. */
    method ReadAt(t: int) returns (r: Read)
      requires Valid()
      ensures r == if Stored(recs, t) && !KeyOf(t) then Data(recs[FirstAt(recs, 0, t)].data) else Missing
    {
      var op, j := Locate(t);
      OrderlyAll(recs, baseOffset);
      ghost var k := Scan(op.position, j, t);
      ScannedFromIndex(recs, KeyOf(t), j, k, t);
      match ReadTargetPosition(file, VisibleSize(), op.position, t)
      case NoData => r := Missing;
      case Broken => r := EndOfFile;
      case At(start, _) =>
        ReadsRecord(recs, baseOffset, k);
        var next;
        r, next := ReadLogDataAtPosition(start);
    }

    // ---------- opening an existing file ----------

    /** `check`: parses whole records from `start` on, says where the last one starts, and cuts the rest if asked to. */
    method Check(start: nat, keepCorrect: bool) returns (lastMsgStart: nat)
      requires start <= |file|
      modifies `file, `position
      ensures lastMsgStart == LastFrom(RecordSize, old(file), start, start)
      ensures var end := WholeFrom(RecordSize, old(file), start);
              position == if end == start then old(position) else end
      ensures file == if keepCorrect then Resize(old(file), position) else old(file)
    {
      var byteOffset;
      byteOffset, lastMsgStart := ScanRecords(file, start, RecordSize);
      if byteOffset > start {
        position := byteOffset;
      }
      if keepCorrect && position != |file| {
        file := Resize(file, position);
      }
    }

    /** The search of `sanitySimpleCheck`, from the end of the longest record on. */
    method FindMagic() returns (mode: CheckMode)
      requires |file| > LOG_MAX_SIZE + MIN_LEN
      ensures mode == Probe(file, LOG_MAX_SIZE + MIN_LEN)
    {
      var warm := LOG_MAX_SIZE + MIN_LEN;
      while warm < |file|
        invariant Probe(file, warm) == Probe(file, LOG_MAX_SIZE + MIN_LEN)
        decreases |file| - warm
      {
        if warm + 2 > |file| {
          return SearchFails;
        }
        if file[warm..warm + 2] == MAGIC {
          return CheckFrom(warm);
        }
        warm := warm + 2;
      }
      mode := FullCheck;
    }

    /** `SanityCheck`: the full check, or the one from the first magic number found behind the longest record. */
    method SanityCheck() returns (ok: bool, lastMsgStart: nat)
      requires position == 0
      modifies `file, `position
      ensures ok <==> ModeOf(old(file)) != SearchFails
      ensures ok ==> lastMsgStart == CheckedStart(old(file))
      ensures file == CheckedFile(old(file)) && position == CheckedEnd(old(file))
    {
      WalkFromStart(RecordSize, file);
      if |file| == 0 {
        return true, 0;
      }
      if file[|file| - 1..] != END_MAGIC || |file| <= LOG_MAX_SIZE + MIN_LEN {
        lastMsgStart := Check(0, true);
        return true, lastMsgStart;
      }
      var mode := FindMagic();
      match mode {
        case SearchFails => return false, 0;
        case CheckFrom(start) => lastMsgStart := Check(start, false);
        case FullCheck => lastMsgStart := Check(0, true);
      }
      ok := true;
    }

    /** What the segment leaves on disk, closed or crashed. */
    function Files(crashed: bool): SegmentFiles
      requires Valid()
      reads this, index, index.mmap
    {
      SegmentFiles(file, index.IndexFile(crashed))
    }

    lemma LeavesFiles(crashed: bool)
      requires Valid() && index.Blank()
      ensures OnDisk(Files(crashed), baseOffset, recs, cuts)
    {
      SparseRises(recs, baseOffset, cuts);
      index.LeavesIndexFile(crashed);
    }

    /** `NewSegment` on existing files */
    constructor Open(index: Index, file: seq<byte>, ghost recs: seq<Record>, ghost cuts: set<nat>)
      ensures this.index == index && this.baseOffset == index.baseOffset
      ensures this.file == file && position == bytesSinceLastIndexEntry == 0 && totalSize == |file|
      ensures this.recs == recs && this.cuts == cuts
    {
      this.baseOffset, this.index := index.baseOffset, index;
      this.file, position, bytesSinceLastIndexEntry, totalSize := file, 0, 0, |file|;
      this.recs, this.cuts := recs, cuts;
    }

    /** `readAtPosition` */
    method OffsetAtPosition(p: nat) returns (found: bool, offset: int)
      ensures found <==> p + 15 <= |file|
      ensures found ==> offset == OffsetField(file, p)
    {
      if p + 15 > |file| {
        return false, 0;
      }
      return true, OffsetField(file, p);
    }

    /**
     What `initSegments` makes of its segment: the number that stands where the check says the last message starts.
     */
    method RecoverLastSeq() returns (r: Recovered)
      requires position == 0
      modifies `file, `position
      ensures file == CheckedFile(old(file)) && position == CheckedEnd(old(file))
      ensures r == RecoveredFrom(old(file), baseOffset)
    {
      CheckedStartIs(file);
      var ok, start := SanityCheck();
      if !ok {
        return Panics;
      }
      if start == 0 {
        return LastSeq(baseOffset % 0x1_0000_0000);
      }
      var found, offset := OffsetAtPosition(start);
      r := if found then LastSeq(offset % 0x1_0000_0000) else Panics;
    }
  }

  /** Opening the files again: the index has the same entries, the log the same records. */
  method OpenSegment(f: SegmentFiles, base: int, ghost rs: seq<Record>, ghost cuts: set<nat>) returns (s: Segment)
    requires OnDisk(f, base, rs, cuts)
    ensures fresh(s) && fresh(s.index) && fresh(s.index.mmap)
    ensures s.Valid() && s.baseOffset == base && s.recs == rs && s.cuts == cuts + {|rs|}
    ensures s.index.entries == Sparse(rs, base, cuts) && s.file == f.log && s.position == 0
  {
    SparseReopened(rs, base, cuts, |rs|);
    var idx := OpenIndex(f.index, base, Sparse(rs, base, cuts));
    s := new Segment.Open(idx, f.log, rs, cuts + {|rs|});
  }

  /** A run in which a stored record is not found: its offset is an index key. */
  method MissesStored(d: seq<byte>) returns (s: Segment, r: Read)
    requires INDEX_INTERVAL_BYTES < |d| <= LOG_MAX_SIZE
    ensures s.Valid() && Stored(s.recs, 2) && r == Missing
  {
    s := new Segment(0);
    var a := s.AppendLog(Record(1, 0, d));
    a := s.AppendLog(Record(2, 0, []));
    assert s.recs == [Record(1, 0, d), Record(2, 0, [])];
    KeyAfterLongRecord(Record(1, 0, d), Record(2, 0, []), 0);
    r := s.ReadAt(2);
  }
}
