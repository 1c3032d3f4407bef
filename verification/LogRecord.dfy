/** The framed record of a segment file, and what a file made of whole records looks like. */
module LogRecord {
  import opened Bytes
  import opened Framing

  const MAGIC: seq<byte> := [0x15, 0x16]
  const VERSION: seq<byte> := [0x01]
  const END_MAGIC: seq<byte> := [0x3]
  const LOG_MAX_SIZE: nat := 1024 * 1024
  const HEADER_LEN: nat := 23
  const MIN_LEN: nat := 24

  datatype Record = Record(offset: i64, appliIndex: u64, data: seq<byte>)

  function Header(r: Record): (h: seq<byte>)
    ensures |h| == HEADER_LEN
  {
    MAGIC + VERSION + BigEndian(|r.data|, 4) + (BigEndian(Unsigned64(r.offset), 8) + BigEndian(r.appliIndex, 8))
  }

  /** `wrapLogData` */
  function Wrap(r: Record): (b: seq<byte>)
    ensures |b| == MIN_LEN + |r.data|
  {
    Header(r) + r.data + END_MAGIC
  }

  ghost predicate Storable(rs: seq<Record>) {
    forall i {:trigger rs[i].data} :: 0 <= i < |rs| ==> |rs[i].data| <= LOG_MAX_SIZE
  }

  ghost predicate Increasing(rs: seq<Record>) {
    forall i, j {:trigger rs[i].offset, rs[j].offset} :: 0 <= i < j < |rs| ==> rs[i].offset < rs[j].offset
  }

  /** A file that holds exactly these records. */
  function Flat(rs: seq<Record>): seq<byte> {
    if rs == [] then [] else Flat(rs[..|rs| - 1]) + Wrap(rs[|rs| - 1])
  }

  /** Where record `k` starts; `Pos(rs, |rs|)` is the end of the file. */
  function Pos(rs: seq<Record>, k: nat): nat
    requires k <= |rs|
  {
    if k == 0 then 0 else Pos(rs, k - 1) + MIN_LEN + |rs[k - 1].data|
  }

  // ---------- fields of the record at a position ----------

  function SizeField(file: seq<byte>, p: nat): u32
    requires p + 7 <= |file|
  {
    U32At(file, p + 3)
  }

  function OffsetField(file: seq<byte>, p: nat): i64
    requires p + 15 <= |file|
  {
    Signed64(U64At(file, p + 7))
  }

  function AppliField(file: seq<byte>, p: nat): u64
    requires p + 23 <= |file|
  {
    U64At(file, p + 15)
  }

  /** The header gives back the fields it was written from. */
  lemma HeaderFields(r: Record)
    requires |r.data| < TWO32
    ensures Header(r)[..2] == MAGIC && Header(r)[2..3] == VERSION
    ensures SizeField(Header(r), 0) == |r.data|
    ensures OffsetField(Header(r), 0) == r.offset
    ensures AppliField(Header(r), 0) == r.appliIndex
  {
    var size, offset, appli := BigEndian(|r.data|, 4), BigEndian(Unsigned64(r.offset), 8), BigEndian(r.appliIndex, 8);
    HeaderParts(MAGIC + VERSION, size, offset, appli);
    U32RoundTrip(|r.data|);
    I64RoundTrip(r.offset);
    U64RoundTrip(r.appliIndex);
  }

  /** A record as bytes, and where in them its data stands. */
  lemma RecordBytes(r: Record)
    ensures Wrap(r) == [0x15, 0x16, 0x01] + BigEndian(|r.data|, 4) + BigEndian(Unsigned64(r.offset), 8)
                       + BigEndian(r.appliIndex, 8) + r.data + [0x03]
    ensures Wrap(r)[23..23 + |r.data|] == r.data
  {
    var start, size := [0x15, 0x16, 0x01], BigEndian(|r.data|, 4);
    var offset, appli := BigEndian(Unsigned64(r.offset), 8), BigEndian(r.appliIndex, 8);
    assert MAGIC + VERSION == start;
    assert Header(r) == start + size + offset + appli;
  }

  lemma HeaderParts(start: seq<byte>, size: seq<byte>, offset: seq<byte>, appli: seq<byte>)
    requires |start| == 3 && |size| == 4 && |offset| == 8 && |appli| == 8
    ensures var h := start + size + (offset + appli);
            && h[..2] == start[..2] && h[2..3] == start[2..3]
            && U32At(h, 3) == U32At(size, 0) && U64At(h, 7) == U64At(offset, 0) && U64At(h, 15) == U64At(appli, 0)
  {
    var h := start + size + (offset + appli);
    assert h[3..7] == size && h[7..15] == offset && h[15..23] == appli;
    SameU32(h, 3, size);
    SameU64(h, 7, offset);
    SameU64(h, 15, appli);
  }

  /** The fields of a header do not depend on where in a file it stands. */
  lemma FieldsAt(file: seq<byte>, p: nat, h: seq<byte>)
    requires |h| == HEADER_LEN && p + HEADER_LEN <= |file| && file[p..p + HEADER_LEN] == h
    ensures file[p..p + 2] == h[..2] && file[p + 2..p + 3] == h[2..3]
    ensures SizeField(file, p) == SizeField(h, 0)
    ensures OffsetField(file, p) == OffsetField(h, 0)
    ensures AppliField(file, p) == AppliField(h, 0)
  {
    assert forall k :: 0 <= k < HEADER_LEN ==> file[p + k] == h[k];
  }

  lemma SameU32(s: seq<byte>, p: nat, f: seq<byte>)
    requires p + 4 <= |s| && |f| == 4 && s[p..p + 4] == f
    ensures U32At(s, p) == U32At(f, 0)
  {
    assert forall k :: 0 <= k < 4 ==> s[p + k] == f[k];
  }

  lemma SameU64(s: seq<byte>, p: nat, f: seq<byte>)
    requires p + 8 <= |s| && |f| == 8 && s[p..p + 8] == f
    ensures U64At(s, p) == U64At(f, 0)
  {
    assert forall k :: 0 <= k < 8 ==> s[p + k] == f[k];
  }

  // ---------- layout of a whole file ----------

  lemma {:induction false} FlatPrefix(rs: seq<Record>, k: nat)
    requires k <= |rs|
    ensures |Flat(rs[..k])| == Pos(rs, k) <= |Flat(rs)| && Flat(rs)[..Pos(rs, k)] == Flat(rs[..k])
    decreases |rs|, k
  {
    if k < |rs| {
      var init := rs[..|rs| - 1];
      assert init[..k] == rs[..k];
      FlatPrefix(init, k);
      PosOfPrefix(rs, |rs| - 1, k);
    } else if k > 0 {
      assert rs[..k] == rs;
      var init := rs[..k - 1];
      FlatPrefix(init, k - 1);
      assert init[..k - 1] == init;
      PosOfPrefix(rs, k - 1, k - 1);
    }
  }

  lemma {:induction false} PosOfPrefix(rs: seq<Record>, n: nat, k: nat)
    requires k <= n <= |rs|
    ensures Pos(rs[..n], k) == Pos(rs, k)
    decreases k
  {
    if k > 0 {
      PosOfPrefix(rs, n, k - 1);
    }
  }

  lemma RecordAt(rs: seq<Record>, k: nat)
    requires k < |rs|
    ensures Pos(rs, k + 1) == Pos(rs, k) + MIN_LEN + |rs[k].data| <= |Flat(rs)|
    ensures Flat(rs)[Pos(rs, k)..Pos(rs, k + 1)] == Wrap(rs[k])
  {
    var head := rs[..k + 1];
    assert head[..k] == rs[..k];
    FlatPrefix(rs, k);
    FlatPrefix(rs, k + 1);
    var p, q := Pos(rs, k), Pos(rs, k + 1);
    assert Flat(rs)[p..q] == Flat(rs)[..q][p..];
  }

  lemma {:induction false} PosMonotone(rs: seq<Record>, j: nat, k: nat)
    requires j <= k <= |rs|
    ensures Pos(rs, j) + 24 * (k - j) <= Pos(rs, k)
    decreases k
  {
    if j < k {
      PosMonotone(rs, j, k - 1);
    }
  }

  lemma PosOfAll(rs: seq<Record>)
    ensures Pos(rs, |rs|) == |Flat(rs)|
  {
    assert rs[..|rs|] == rs;
    FlatPrefix(rs, |rs|);
  }

  lemma FlatAppend(rs: seq<Record>, r: Record)
    ensures Flat(rs + [r]) == Flat(rs) + Wrap(r)
  {
    assert (rs + [r])[..|rs|] == rs;
  }

  lemma {:induction false} FlatConcat(xs: seq<Record>, ys: seq<Record>)
    ensures Flat(xs + ys) == Flat(xs) + Flat(ys)
    decreases |ys|
  {
    if ys == [] {
      assert xs + ys == xs;
    } else {
      var n := |ys| - 1;
      var init, last := ys[..n], ys[n];
      assert ys == init + [last] && xs + ys == xs + init + [last];
      FlatConcat(xs, init);
      FlatAppend(xs + init, last);
      FlatAppend(init, last);
    }
  }

  /** A whole record stands at position `p` of a file. */
  ghost predicate HoldsAt(file: seq<byte>, p: nat, r: Record) {
    && p + MIN_LEN + |r.data| <= |file|
    && file[p..p + HEADER_LEN] == Header(r)
    && file[p + HEADER_LEN..p + HEADER_LEN + |r.data|] == r.data
    && file[p + HEADER_LEN + |r.data|..p + MIN_LEN + |r.data|] == END_MAGIC
  }

  lemma HeldFields(file: seq<byte>, p: nat, r: Record)
    requires HoldsAt(file, p, r) && |r.data| < TWO32
    ensures file[p..p + 2] == MAGIC && file[p + 2..p + 3] == VERSION
    ensures SizeField(file, p) == |r.data| && OffsetField(file, p) == r.offset && AppliField(file, p) == r.appliIndex
  {
    HeaderFields(r);
    FieldsAt(file, p, Header(r));
  }

  lemma HoldsWhereWrapped(file: seq<byte>, p: nat, q: nat, r: Record)
    requires q == p + MIN_LEN + |r.data| <= |file|
    requires file[p..q] == Wrap(r)
    ensures HoldsAt(file, p, r)
  {
    var b, n := Wrap(r), |r.data|;
    assert b[0..23] == Header(r) && b[23..23 + n] == r.data && b[23 + n..24 + n] == END_MAGIC;
    SliceOfSlice(file, p, q, 0, 23);
    SliceOfSlice(file, p, q, 23, 23 + n);
    SliceOfSlice(file, p, q, 23 + n, 24 + n);
  }

  lemma SliceOfSlice(s: seq<byte>, p: nat, q: nat, i: nat, j: nat)
    requires p <= q <= |s| && i <= j <= q - p
    ensures s[p..q][i..j] == s[p + i..p + j]
  {
    forall k | 0 <= k < j - i
      ensures s[p..q][i..j][k] == s[p + i..p + j][k]
    {
      assert s[p..q][i..j][k] == s[p..q][i + k];
    }
  }

  /** Every record can be read back from where it starts, and nothing follows the last one. */
  ghost predicate Holds(file: seq<byte>, rs: seq<Record>) {
    && |file| == Pos(rs, |rs|)
    && forall k {:trigger HoldsAt(file, Pos(rs, k), rs[k])} :: 0 <= k < |rs| ==> HoldsAt(file, Pos(rs, k), rs[k])
  }

  lemma FlatHolds(rs: seq<Record>)
    requires Storable(rs)
    ensures Holds(Flat(rs), rs)
  {
    PosOfAll(rs);
    forall k | 0 <= k < |rs|
      ensures HoldsAt(Flat(rs), Pos(rs, k), rs[k])
    {
      RecordAt(rs, k);
      HoldsWhereWrapped(Flat(rs), Pos(rs, k), Pos(rs, k + 1), rs[k]);
    }
  }

  // ---------- records from an offset on ----------

  /** The simple reading of "from offset `t` on": drop the records below `t`. */
  function From(rs: seq<Record>, t: int): seq<Record> {
    if rs == [] || rs[0].offset >= t then rs else From(rs[1..], t)
  }

  function Take<T>(s: seq<T>, n: nat): seq<T> {
    if n < |s| then s[..n] else s
  }

  function Datas(rs: seq<Record>): (d: seq<seq<byte>>)
    ensures |d| == |rs|
  {
    seq(|rs|, i requires 0 <= i < |rs| => rs[i].data)
  }

  ghost predicate Stored(rs: seq<Record>, t: int) {
    exists k :: 0 <= k < |rs| && rs[k].offset == t
  }

  /** Cutting a strictly increasing log where the offsets reach `t`. */
  lemma {:induction false} FromIs(rs: seq<Record>, t: int, k: nat)
    requires k <= |rs|
    requires forall i :: 0 <= i < k ==> rs[i].offset < t
    requires k < |rs| ==> rs[k].offset >= t
    ensures From(rs, t) == rs[k..]
    decreases k
  {
    if k > 0 {
      FromIs(rs[1..], t, k - 1);
      assert rs[1..][k - 1..] == rs[k..];
    }
  }

  lemma {:induction false} FromConcat(xs: seq<Record>, ys: seq<Record>, t: int)
    ensures From(xs, t) != [] ==> From(xs + ys, t) == From(xs, t) + ys
    ensures From(xs, t) == [] ==> From(xs + ys, t) == From(ys, t)
    decreases |xs|
  {
    if xs == [] {
      assert xs + ys == ys;
    } else {
      assert (xs + ys)[1..] == xs[1..] + ys;
      FromConcat(xs[1..], ys, t);
    }
  }

  /** `From` is exactly the records at or above `t`, wherever the offsets increase. */
  lemma {:induction false} FromCut(rs: seq<Record>, t: int) returns (k: nat)
    requires Increasing(rs)
    ensures k <= |rs| && From(rs, t) == rs[k..]
    ensures forall i :: 0 <= i < |rs| ==> (rs[i].offset >= t <==> i >= k)
    decreases |rs|
  {
    if rs == [] || rs[0].offset >= t {
      k := 0;
    } else {
      var k' := FromCut(rs[1..], t);
      k := k' + 1;
      assert rs[1..][k'..] == rs[k..];
      forall i | 0 <= i < |rs|
        ensures rs[i].offset >= t <==> i >= k
      {
        if i > 0 { assert rs[1..][i - 1] == rs[i]; }
      }
    }
  }

  // ---------- the linear scan ----------

  datatype Found = At(start: nat, next: nat) | NoData | Broken

  /** `readTargetPosition`: walk record by record until the offset matches or the visible size ends. */
  function ReadTargetPosition(file: seq<byte>, size: nat, start: nat, target: int): Found
    decreases size - start
  {
    if start >= size then NoData
    else if start + 15 > |file| then Broken
    else
      var next := start + HEADER_LEN + SizeField(file, start) + 1;
      if OffsetField(file, start) == target then At(start, next)
      else ReadTargetPosition(file, size, next, target)
  }

  lemma ScanStep(file: seq<byte>, size: nat, p: nat, r: Record, target: int)
    requires HoldsAt(file, p, r) && |r.data| < TWO32 && p < size
    ensures ReadTargetPosition(file, size, p, target)
         == if r.offset == target then At(p, p + MIN_LEN + |r.data|)
            else ReadTargetPosition(file, size, p + MIN_LEN + |r.data|, target)
  {
    HeldFields(file, p, r);
  }

  lemma {:induction false} ScanSkips(file: seq<byte>, rs: seq<Record>, j: nat, k: nat, t: int)
    requires Holds(file, rs) && Storable(rs) && j <= k <= |rs|
    requires forall i {:trigger rs[i].offset} :: j <= i < k ==> rs[i].offset != t
    ensures ReadTargetPosition(file, |file|, Pos(rs, j), t) == ReadTargetPosition(file, |file|, Pos(rs, k), t)
    decreases k - j
  {
    if j < k {
      ScanRecord(file, rs, j, t);
      ScanSkips(file, rs, j + 1, k, t);
    }
  }

  lemma ScanRecord(file: seq<byte>, rs: seq<Record>, k: nat, t: int)
    requires Holds(file, rs) && Storable(rs) && k < |rs|
    ensures ReadTargetPosition(file, |file|, Pos(rs, k), t)
         == if rs[k].offset == t then At(Pos(rs, k), Pos(rs, k + 1))
            else ReadTargetPosition(file, |file|, Pos(rs, k + 1), t)
  {
    assert HoldsAt(file, Pos(rs, k), rs[k]);
    ScanStep(file, |file|, Pos(rs, k), rs[k], t);
  }

  /** From the start of record `j`, the scan finds exactly the stored record at or after `j`. */
  lemma ScanFinds(file: seq<byte>, rs: seq<Record>, j: nat, k: nat, t: int)
    requires Holds(file, rs) && Storable(rs) && j <= k <= |rs|
    requires forall i {:trigger rs[i].offset} :: j <= i < k ==> rs[i].offset != t
    requires k < |rs| ==> rs[k].offset == t
    ensures ReadTargetPosition(file, |file|, Pos(rs, j), t)
         == if k < |rs| then At(Pos(rs, k), Pos(rs, k + 1)) else NoData
  {
    ScanSkips(file, rs, j, k, t);
    if k < |rs| {
      ScanRecord(file, rs, k, t);
    }
  }

  // ---------- whole records as a prefix code ----------

  /**
   The size of the whole record at the head of a buffer, as the repair parser cuts it: the start
   magic number and the length field decide; version, end magic and content are not looked at.
   */
  function RecordSize(b: seq<byte>): (n: nat)
    ensures n <= |b|
  {
    if |b| < 2 || b[..2] != MAGIC || 7 >= |b| then 0
    else
      var n := MIN_LEN + SizeField(b, 0);
      if n > |b| then 0 else n
  }

  lemma RecordSizeIsPrefixCode()
    ensures PrefixCode(RecordSize)
  {
    forall b: seq<byte>, c: seq<byte> | RecordSize(b) > 0
      ensures RecordSize(b + c) == RecordSize(b)
    {
      assert (b + c)[..2] == b[..2];
    }
    forall b: seq<byte>, n: nat | 0 < RecordSize(b) <= n <= |b|
      ensures RecordSize(b[..n]) == RecordSize(b)
    {
      assert b[..n][..2] == b[..2];
    }
  }

  lemma WrapIsFrame(r: Record)
    requires |r.data| < TWO32
    ensures RecordSize(Wrap(r)) == |Wrap(r)|
  {
    var b := Wrap(r);
    assert b[0..23] == Header(r);
    HeaderFields(r);
    FieldsAt(b, 0, Header(r));
  }

  /** A proper prefix of a record is never cut off as a record. */
  lemma TornRecordIsNoFrame(r: Record, n: nat)
    requires |r.data| < TWO32 && n < |Wrap(r)|
    ensures RecordSize(Wrap(r)[..n]) == 0
  {
    WrapIsFrame(r);
    RecordSizeIsPrefixCode();
    var b := Wrap(r);
    assert b == b[..n] + b[n..];
  }

  lemma {:induction false} FlatIsFrames(rs: seq<Record>) returns (frames: seq<seq<byte>>)
    requires Storable(rs)
    ensures AllFrames(RecordSize, frames) && Concat(frames) == Flat(rs) && |frames| == |rs|
    decreases |rs|
  {
    if rs == [] {
      frames := [];
    } else {
      var r := rs[|rs| - 1];
      var init := FlatIsFrames(rs[..|rs| - 1]);
      WrapIsFrame(r);
      frames := init + [Wrap(r)];
      ConcatSnoc(init, Wrap(r));
    }
  }

  lemma {:induction false} ConcatSnoc(parts: seq<seq<byte>>, p: seq<byte>)
    ensures Concat(parts + [p]) == Concat(parts) + p
  {
    if parts == [] {
      assert parts + [p] == [p];
      assert Concat([p]) == p + [] == p;
    } else {
      assert (parts + [p])[1..] == parts[1..] + [p];
      ConcatSnoc(parts[1..], p);
      assert parts[0] + (Concat(parts[1..]) + p) == Concat(parts) + p;
    }
  }
}
