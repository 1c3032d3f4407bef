/** The sparse index of a segment: fixed-size entries in a memory-mapped file. */
module LogIndex {
  import opened Bytes

  const ENTRY_SIZE: nat := 8
  const MAX_BYTES: nat := 10 * 1024 * 1024
  const WARM_ENTRIES: int := 8192 / 8

  /** What an entry stores: the offset relative to the segment's base, and a file position. */
  datatype Entry = Entry(relativeOffset: u32, position: u32)

  datatype OffsetPosition = OffsetPosition(offset: int, position: nat)

  function Slot(m: seq<byte>, i: nat): Entry
    requires 8 * i + ENTRY_SIZE <= |m|
  {
    Entry(U32At(m, 8 * i), U32At(m, 8 * i + 4))
  }

  function Slots(m: seq<byte>, n: nat): (es: seq<Entry>)
    requires 8 * n <= |m|
    ensures |es| == n
  {
    if n == 0 then [] else Slots(m, n - 1) + [Slot(m, n - 1)]
  }

  lemma {:induction false} SlotsAt(m: seq<byte>, n: nat, i: nat)
    requires 8 * n <= |m| && i < n
    ensures Slots(m, n)[i] == Slot(m, i)
  {
    if i < n - 1 {
      SlotsAt(m, n - 1, i);
    }
  }

  function EntryBytes(e: Entry): (b: seq<byte>)
    ensures |b| == ENTRY_SIZE
  {
    BigEndian(e.relativeOffset, 4) + BigEndian(e.position, 4)
  }

  /** The truncation of an entry's two numbers to 32 bits. */
  function EntryFor(relativeOffset: int, position: nat): Entry {
    Entry(relativeOffset % 0x1_0000_0000, position % 0x1_0000_0000)
  }

  lemma SlotOfBytes(m: seq<byte>, i: nat, e: Entry)
    requires 8 * i + ENTRY_SIZE <= |m| && m[8 * i..8 * i + 8] == EntryBytes(e)
    ensures Slot(m, i) == e
  {
    var b := m[8 * i..8 * i + 8];
    assert forall k :: 0 <= k < 8 ==> m[8 * i + k] == b[k];
    assert forall k :: 0 <= k < 4 ==> b[k] == BigEndian(e.relativeOffset, 4)[k];
    assert forall k :: 0 <= k < 4 ==> b[4 + k] == BigEndian(e.position, 4)[k];
    U32RoundTrip(e.relativeOffset);
    U32RoundTrip(e.position);
  }

  /** The first `n` slots depend on the bytes of the first `n` slots only. */
  lemma {:induction false} SlotsFrame(m: seq<byte>, m': seq<byte>, n: nat)
    requires 8 * n <= |m| && 8 * n <= |m'|
    requires m[..8 * n] == m'[..8 * n]
    ensures Slots(m, n) == Slots(m', n)
  {
    if n > 0 {
      var i, p := n - 1, m[..8 * n];
      assert m[..8 * i] == p[..8 * i] == m'[..8 * i];
      assert forall k :: 0 <= k < 8 * n ==> m[k] == p[k] == m'[k];
      SlotsFrame(m, m', i);
    }
  }

  lemma WrittenSlot(m: seq<byte>, n: nat, e: Entry)
    requires 8 * n + 8 <= |m|
    ensures Slots(m[..8 * n] + EntryBytes(e) + m[8 * n + 8..], n + 1) == Slots(m, n) + [e]
  {
    var m' := m[..8 * n] + EntryBytes(e) + m[8 * n + 8..];
    assert m'[..8 * n] == m[..8 * n];
    SlotsFrame(m, m', n);
    SlotOfBytes(m', n, e);
  }

  ghost predicate Rising(es: seq<Entry>) {
    forall i, j {:trigger es[i].relativeOffset, es[j].relativeOffset} ::
      0 <= i < j < |es| ==> es[i].relativeOffset < es[j].relativeOffset
  }

  /** Where the binary search has to end: `lo` is the last entry at or below the target. */
  ghost predicate IsFloor(es: seq<Entry>, base: int, target: int, lo: int) {
    && -1 <= lo < |es|
    && (forall i :: 0 <= i <= lo ==> base + es[i].relativeOffset <= target)
    && (forall i :: lo < i < |es| ==> base + es[i].relativeOffset > target)
  }

  ghost predicate AllAbove(es: seq<Entry>, base: int, target: int, from: int) {
    forall i :: 0 <= i && from <= i < |es| ==> base + es[i].relativeOffset > target
  }

  lemma AboveFrom(es: seq<Entry>, base: int, target: int, mid: nat)
    requires Rising(es) && mid < |es| && base + es[mid].relativeOffset > target
    ensures AllAbove(es, base, target, mid)
  {
  }

  lemma FloorReached(es: seq<Entry>, base: int, target: int, lo: nat)
    requires Rising(es) && lo < |es| && base + es[lo].relativeOffset <= target
    requires base + es[lo].relativeOffset == target || AllAbove(es, base, target, lo + 1)
    ensures IsFloor(es, base, target, lo)
  {
  }

  lemma OneFloor(es: seq<Entry>, base: int, target: int, lo: int, k: int)
    requires IsFloor(es, base, target, lo) && IsFloor(es, base, target, k)
    ensures lo == k
  {
    assert k >= 0 ==> base + es[k].relativeOffset <= target;
    assert lo >= 0 ==> base + es[lo].relativeOffset <= target;
  }

  /** What `Lookup` answers for the entry the search ended on. */
  function FloorEntry(es: seq<Entry>, base: int, lo: int): OffsetPosition
    requires -1 <= lo < |es|
  {
    if lo == -1 then OffsetPosition(base, 0) else OffsetPosition(base + es[lo].relativeOffset, es[lo].position)
  }

  // ---------- reopening ----------

  /** `resetPosistion` stops at the end of the old file or at the first entry with relative offset 0. */
  ghost predicate IsRecovered(m: seq<byte>, total: nat, n: nat) {
    && 8 * n <= total <= |m|
    && (forall i :: 0 <= i < n ==> Slot(m, i).relativeOffset != 0)
    && (8 * n + ENTRY_SIZE <= total ==> Slot(m, n).relativeOffset == 0)
  }

  /** A file that a run left behind with these entries: nothing is written behind them, and none is at the base. */
  ghost predicate IsIndexFile(file: seq<byte>, es: seq<Entry>) {
    && 8 * |es| <= |file| <= MAX_BYTES && |file| % 8 == 0
    && Slots(file, |es|) == es
    && (forall e <- es :: e.relativeOffset != 0)
    && (forall k :: 8 * |es| <= k < |file| ==> file[k] == 0)
  }

  /** The opening scan of such a file stops right behind its entries. */
  lemma RecoversAppended(file: seq<byte>, es: seq<Entry>, n: nat)
    requires IsIndexFile(file, es) && IsRecovered(Resize(file, MAX_BYTES), |file|, n)
    ensures n == |es| && Slots(Resize(file, MAX_BYTES), n) == es
  {
    var m := Resize(file, MAX_BYTES);
    assert m[..8 * |es|] == file[..8 * |es|];
    SlotsFrame(m, file, |es|);
    if n < |es| {
      SlotsAt(m, |es|, n);
      NonZeroAt(es, n);
    } else if |es| < n {
      assert forall k :: 0 <= k < |file| ==> m[k] == file[k];
      ZeroSlot(m, |es|);
    }
  }

  lemma NonZeroAt(es: seq<Entry>, n: nat)
    requires n < |es| && forall e <- es :: e.relativeOffset != 0
    ensures es[n].relativeOffset != 0
  {
  }

  lemma ZeroSlot(m: seq<byte>, i: nat)
    requires 8 * i + ENTRY_SIZE <= |m|
    requires forall k :: 8 * i <= k < 8 * i + 4 ==> m[k] == 0
    ensures Slot(m, i).relativeOffset == 0
  {
  }

  class Index {
    const baseOffset: int
    const mmap: array<byte>
    var position: nat
    /** The entries the mapped bytes encode. */
    ghost var entries: seq<Entry>

    ghost predicate Valid()
      reads this, mmap
    {
      && mmap.Length == MAX_BYTES
      && position == 8 * |entries| <= MAX_BYTES
      && entries == Slots(mmap[..], |entries|)
    }

    /** Nothing was ever written behind the entries. */
    ghost predicate Blank()
      reads this, mmap
    {
      mmap.Length == MAX_BYTES && forall k :: position <= k < MAX_BYTES ==> mmap[k] == 0
    }

    function Count(): nat
      reads this
    {
      position / 8
    }

    /** `NewIndex` over the bytes a previous run left behind, mapped at its full size. */
    constructor (file: seq<byte>, baseOffset: int)
      requires |file| <= MAX_BYTES
      ensures mmap.Length == MAX_BYTES && fresh(mmap) && this.baseOffset == baseOffset
      ensures position == |file| && mmap[..] == Resize(file, MAX_BYTES)
      ensures entries == [] && (file == [] ==> Valid() && Blank())
    {
      this.baseOffset := baseOffset;
      position, entries := |file|, [];
      var mapped := Resize(file, MAX_BYTES);
      mmap := new byte[MAX_BYTES](i requires 0 <= i < MAX_BYTES => mapped[i]);
    }

    /** The opening scan. It fails where a partial entry ends the old file. */
    method ResetPosition() returns (ok: bool)
      requires mmap.Length == MAX_BYTES && position <= MAX_BYTES
      modifies `position, `entries
      ensures ok ==> Valid()
      ensures ok ==> position % 8 == 0 && IsRecovered(mmap[..], old(position), position / 8)
      ensures old(position) % 8 == 0 ==> ok
      ensures !ok ==> position == old(position)
    {
      var total, p, n := position, 0, 0;
      while p < total
        invariant p == 8 * n
        invariant total % 8 == 0 ==> p <= total
        invariant p <= total
        invariant position == total
        invariant forall i :: 0 <= i < n ==> Slot(mmap[..], i).relativeOffset != 0
      {
        if position < p + ENTRY_SIZE {
          return false;
        }
        var entry := Slot(mmap[..], n);
        if entry.relativeOffset == 0 {
          break;
        }
        p, n := p + ENTRY_SIZE, n + 1;
      }
      position := p;
      entries := Slots(mmap[..], n);
      return true;
    }

    /** `writeAt` */
    method WriteAt(b: seq<byte>)
      requires Valid() && |b| == 8 && position + 8 <= MAX_BYTES
      modifies mmap
      ensures mmap[..] == old(mmap[..])[..position] + b + old(mmap[..])[position + 8..]
      ensures forall k :: position + 8 <= k < MAX_BYTES ==> mmap[k] == old(mmap[k])
    {
      forall k | 0 <= k < 8 {
        mmap[position + k] := b[k];
      }
    }

    method Append(offset: int, filePosition: nat)
      requires Valid()
      modifies this, mmap
      ensures Valid() && (old(Blank()) ==> Blank())
      ensures entries == if old(position) >= MAX_BYTES then old(entries)
                         else old(entries) + [EntryFor(offset - baseOffset, filePosition)]
      ensures old(position) < MAX_BYTES ==>
                mmap[..] == old(mmap[..])[..old(position)] + (BigEndian((offset - baseOffset) % 0x1_0000_0000, 4)
                            + BigEndian(filePosition % 0x1_0000_0000, 4)) + old(mmap[..])[old(position) + 8..]
    {
      var e := EntryFor(offset - baseOffset, filePosition);
      if position >= MAX_BYTES {
        return;
      }
      WrittenSlot(mmap[..], |entries|, e);
      WriteAt(EntryBytes(e));
      position := position + ENTRY_SIZE;
      entries := entries + [e];
    }

    method ParseEntry(mid: nat) returns (r: OffsetPosition)
      requires Valid() && mid < Count()
      ensures r == FloorEntry(entries, baseOffset, mid)
    {
      var e := Slot(mmap[..], mid);
      SlotsAt(mmap[..], |entries|, mid);
      r := OffsetPosition(baseOffset + e.relativeOffset, e.position);
    }

    method BinarySearch(begin: nat, end: nat, target: int) returns (lo: int, next: int)
      requires Valid() && Rising(entries)
      requires begin <= end < Count()
      requires baseOffset + entries[begin].relativeOffset <= target
      requires AllAbove(entries, baseOffset, target, end + 1)
      ensures IsFloor(entries, baseOffset, target, lo) && lo >= 0
      ensures next == lo || next == if lo == Count() - 1 then -1 else lo + 1
    {
      var hi := end;
      lo := begin;
      while lo < hi
        invariant begin <= lo <= hi <= end
        invariant FloorEntry(entries, baseOffset, lo).offset <= target
        invariant AllAbove(entries, baseOffset, target, hi + 1)
      {
        var mid := (lo + hi + 1) / 2;
        var found := ParseEntry(mid);
        if found.offset > target {
          AboveFrom(entries, baseOffset, target, mid);
          hi := mid - 1;
        } else if found.offset < target {
          lo := mid;
        } else {
          FloorReached(entries, baseOffset, target, mid);
          return mid, mid;
        }
      }
      FloorReached(entries, baseOffset, target, lo);
      next := if lo == Count() - 1 then -1 else lo + 1;
    }

    method IndexSlotRangeFor(target: int) returns (lo: int, next: int)
      requires Valid() && Rising(entries)
      ensures IsFloor(entries, baseOffset, target, lo)
    {
      var n := Count();
      if n == 0 {
        return -1, -1;
      }
      var firstHotEntry := if n - 1 - WARM_ENTRIES > 0 then n - 1 - WARM_ENTRIES else 0;
      var hot := ParseEntry(firstHotEntry);
      if hot.offset < target {
        lo, next := BinarySearch(firstHotEntry, n - 1, target);
        return;
      }
      var first := ParseEntry(0);
      if first.offset > target {
        AboveFrom(entries, baseOffset, target, 0);
        return -1, 0;
      }
      if hot.offset > target {
        AboveFrom(entries, baseOffset, target, firstHotEntry);
      } else {
        assert AllAbove(entries, baseOffset, target, firstHotEntry + 1);
      }
      lo, next := BinarySearch(0, firstHotEntry, target);
    }

    /** The greatest entry at or below the target, or the base when every entry is above it. */
    method Lookup(target: int) returns (r: OffsetPosition, ghost lo: int)
      requires Valid() && Rising(entries)
      ensures IsFloor(entries, baseOffset, target, lo)
      ensures r == FloorEntry(entries, baseOffset, lo)
      ensures forall k {:trigger IsFloor(entries, baseOffset, target, k)} ::
                IsFloor(entries, baseOffset, target, k) ==> r == FloorEntry(entries, baseOffset, k)
    {
      var min, next := IndexSlotRangeFor(target);
      lo := min;
      forall k {:trigger IsFloor(entries, baseOffset, target, k)} | IsFloor(entries, baseOffset, target, k)
        ensures k == min
      {
        OneFloor(entries, baseOffset, target, k, min);
      }
      if min == -1 {
        return OffsetPosition(baseOffset, 0), lo;
      }
      r := ParseEntry(min);
    }

    /** What `Close` leaves on disk; a crash leaves the whole mapped file instead. */
    function IndexFile(crashed: bool): seq<byte>
      requires Valid()
      reads this, mmap
    {
      if crashed then mmap[..] else mmap[..position]
    }

    lemma LeavesIndexFile(crashed: bool)
      requires Valid() && Blank() && forall e <- entries :: e.relativeOffset != 0
      ensures IsIndexFile(IndexFile(crashed), entries)
    {
      var f := IndexFile(crashed);
      assert f[..8 * |entries|] == mmap[..][..8 * |entries|];
      SlotsFrame(f, mmap[..], |entries|);
    }
  }

  /**
   Opening an index file again, after `Close` or after a crash, recovers exactly the entries appended.
   */
  method OpenIndex(file: seq<byte>, baseOffset: int, ghost es: seq<Entry>) returns (idx: Index)
    requires IsIndexFile(file, es)
    ensures fresh(idx) && fresh(idx.mmap) && idx.baseOffset == baseOffset
    ensures idx.Valid() && idx.entries == es
  {
    idx := new Index(file, baseOffset);
    var ok := idx.ResetPosition();
    RecoversAppended(file, es, idx.position / 8);
  }
}
