/** Opening a topic's last segment: which check it gets, and whether the numbering goes on behind the last message. */
module LogOpening {
  import opened Bytes
  import opened Framing
  import opened LogRecord
  import opened LogRepair
  import opened LogSegment

  /** The last record of a file of whole records starts here. */
  ghost function LastPos(rs: seq<Record>): nat
    requires rs != []
  {
    Pos(rs, |rs| - 1)
  }

  /** Between the magic number the check has found and the last record lie whole records only. */
  ghost predicate CameToLast(rs: seq<Record>, torn: seq<byte>, p: nat)
    requires rs != []
  {
    torn == [] && p <= LastPos(rs) < |Flat(rs)| && Framed(RecordSize, Flat(rs)[p..LastPos(rs)])
  }

  lemma LastHolds(rs: seq<Record>)
    requires Storable(rs) && rs != []
    ensures HoldsAt(Flat(rs), LastPos(rs), rs[|rs| - 1])
  {
    FlatHolds(rs);
  }

  lemma LastWrapped(rs: seq<Record>)
    requires rs != []
    ensures LastPos(rs) + MIN_LEN <= |Flat(rs)| && Flat(rs)[LastPos(rs)..] == Wrap(rs[|rs| - 1])
  {
    var n := |rs| - 1;
    RecordAt(rs, n);
    PosOfAll(rs);
    assert Flat(rs)[LastPos(rs)..Pos(rs, |rs|)] == Flat(rs)[LastPos(rs)..];
  }

  lemma SuffixConcat(b: seq<byte>, c: seq<byte>, p: nat)
    requires p <= |b|
    ensures (b + c)[p..] == b[p..] + c
  {
  }

  lemma LastSize(rs: seq<Record>, torn: seq<byte>)
    requires Storable(rs) && rs != [] && LastPos(rs) <= |Flat(rs)|
    ensures RecordSize((Flat(rs) + torn)[LastPos(rs)..]) == |Flat(rs)| - LastPos(rs) > 0
  {
    var w := Wrap(rs[|rs| - 1]);
    LastWrapped(rs);
    SuffixConcat(Flat(rs), torn, LastPos(rs));
    RecordSizeIsPrefixCode();
    WrapIsFrame(rs[|rs| - 1]);
    assert RecordSize(w + torn) == RecordSize(w);
  }

  /** Started somewhere in the file, the check comes to the last message exactly if only whole records lie between. */
  lemma ComesToLast(rs: seq<Record>, torn: seq<byte>, p: nat)
    requires Storable(rs) && rs != [] && RecordSize(torn) == 0 && p < |Flat(rs) + torn|
    ensures LastFrom(RecordSize, Flat(rs) + torn, p, p) == LastPos(rs) <==> CameToLast(rs, torn, p)
    ensures CameToLast(rs, torn, p) ==> WholeFrom(RecordSize, Flat(rs), p) == |Flat(rs)|
  {
    var b, l := Flat(rs) + torn, LastPos(rs);
    LastWrapped(rs);
    LastSize(rs, torn);
    RecordSizeIsPrefixCode();
    WalkEndsAt(RecordSize, b, p, l);
    if torn == [] {
      assert b == Flat(rs);
    }
  }

  /** From the start of any record on it does. */
  lemma RecordsComeToLast(rs: seq<Record>, k: nat)
    requires Storable(rs) && k < |rs|
    ensures CameToLast(rs, [], Pos(rs, k))
  {
    SliceIsFramed(rs, k, |rs| - 1, Pos(rs, k), Pos(rs, |rs| - 1));
    LastWrapped(rs);
  }

  lemma SliceIsFramed(rs: seq<Record>, k: nat, n: nat, p: nat, q: nat)
    requires Storable(rs) && k <= n <= |rs| && p == Pos(rs, k) && q == Pos(rs, n)
    ensures p <= q <= |Flat(rs)| && Framed(RecordSize, Flat(rs)[p..q])
  {
    SliceIsFlat(rs, k, n, p, q);
    var part := rs[k..n];
    var frames := FlatIsFrames(part);
    assert AllFrames(RecordSize, frames) && Concat(frames) == Flat(part);
  }

  lemma SliceIsFlat(rs: seq<Record>, k: nat, n: nat, p: nat, q: nat)
    requires k <= n <= |rs| && p == Pos(rs, k) && q == Pos(rs, n)
    ensures p <= q <= |Flat(rs)| && Flat(rs)[p..q] == Flat(rs[k..n])
  {
    var xs, ys := rs[..k], rs[k..n];
    var b, x, y := Flat(rs), Flat(xs), Flat(ys);
    assert |x| == p by {
      FlatPrefix(rs, k);
    }
    assert q <= |b| && b[..q] == x + y by {
      FlatPrefix(rs, n);
      FlatConcat(xs, ys);
      assert rs[..n] == xs + ys;
    }
    SliceOfConcat(b, x, y);
  }

  lemma SliceOfConcat(b: seq<byte>, x: seq<byte>, y: seq<byte>)
    requires |x| + |y| <= |b| && b[..|x| + |y|] == x + y
    ensures b[|x|..|x| + |y|] == y
  {
    assert b[|x|..|x| + |y|] == b[..|x| + |y|][|x|..];
  }

  // ---------- the number opening goes on from ----------

  /** What the full check makes of whole records with a torn tail behind them. */
  function Reopened(rs: seq<Record>, base: int, torn: seq<byte>): Recovered {
    if torn != [] && rs != [] then Panics
    else if |rs| <= 1 then LastSeq(base % 0x1_0000_0000)
    else LastSeq(rs[|rs| - 1].offset % 0x1_0000_0000)
  }

  /**
   The full check on whole records with a torn tail. A single record gives the base, and a torn tail behind any record
   makes the opening fail although the repaired file is intact.
   */
  lemma FullyChecked(rs: seq<Record>, base: int, torn: seq<byte>)
    requires Orderly(rs, base) && RecordSize(torn) == 0 && ModeOf(Flat(rs) + torn) == FullCheck
    ensures RecoveredFrom(Flat(rs) + torn, base) == Reopened(rs, base, torn)
  {
    OrderlyAll(rs, base);
    KeptOfTorn(rs, torn);
    LastStartOfFile(rs, torn);
    var b := Flat(rs) + torn;
    assert b[..Kept(b)] == Flat(rs);
    PosMonotone(rs, 0, |rs|);
    PosOfAll(rs);
    if torn == [] && |rs| > 1 {
      PosMonotone(rs, 0, |rs| - 1);
      LastHolds(rs);
      HeldFields(Flat(rs), LastPos(rs), rs[|rs| - 1]);
    }
  }

  lemma ReopenedLastNumber(rs: seq<Record>, base: nat, torn: seq<byte>)
    requires Orderly(rs, base) && rs != [] && rs[|rs| - 1].offset < 0x1_0000_0000
    ensures Reopened(rs, base, torn) == LastSeq(rs[|rs| - 1].offset)
            <==> torn == [] && (|rs| > 1 || rs[0].offset == base)
  {
    OrderlyAll(rs, base);
    var first, last := rs[0].offset, rs[|rs| - 1].offset;
    assert base <= first && (|rs| > 1 ==> first < last);
  }

  lemma NumberOfHeld(b: seq<byte>, p: nat, r: Record, number: Recovered)
    requires HoldsAt(b, p, r) && |r.data| < TWO32 && number == LastSeq(r.offset % 0x1_0000_0000)
    ensures NumberAt(b, p) == number
  {
    HeldFields(b, p, r);
  }

  lemma LastNumberStands(rs: seq<Record>, b: seq<byte>, number: Recovered)
    requires Storable(rs) && rs != [] && b == Flat(rs) && number == LastSeq(rs[|rs| - 1].offset % 0x1_0000_0000)
    ensures NumberAt(b, LastPos(rs)) == number
  {
    LastHolds(rs);
    NumberOfHeld(b, LastPos(rs), rs[|rs| - 1], number);
  }

  /** By accident the same number stands at another place that the check ends at. */
  ghost predicate SameByAccident(rs: seq<Record>, b: seq<byte>, p: nat)
    requires rs != [] && p < |b|
  {
    var start := LastFrom(RecordSize, b, p, p);
    start != LastPos(rs) && NumberAt(b, start) == LastSeq(rs[|rs| - 1].offset)
  }

  lemma FitsNumber(n: int)
    requires 0 <= n < 0x1_0000_0000
    ensures n % 0x1_0000_0000 == n
  {
  }

  lemma NumberIfCame(rs: seq<Record>, torn: seq<byte>, b: seq<byte>, p: nat, number: Recovered)
    requires Storable(rs) && rs != [] && b == Flat(rs) + torn && CameToLast(rs, torn, p)
    requires 0 <= rs[|rs| - 1].offset < 0x1_0000_0000 && number == LastSeq(rs[|rs| - 1].offset)
    ensures NumberAt(b, LastPos(rs)) == number
  {
    FitsNumber(rs[|rs| - 1].offset);
    assert b == Flat(rs);
    LastNumberStands(rs, b, number);
  }

  lemma ByPlace(came: bool, b: seq<byte>, start: nat, last: nat, number: Recovered)
    requires start == last <==> came
    requires came ==> NumberAt(b, last) == number
    ensures NumberAt(b, start) == number <==> came || (start != last && NumberAt(b, start) == number)
  {
  }

  lemma FoundNumber(rs: seq<Record>, torn: seq<byte>, b: seq<byte>, p: nat)
    requires Storable(rs) && rs != [] && RecordSize(torn) == 0 && b == Flat(rs) + torn && p < |b|
    requires 0 <= rs[|rs| - 1].offset < 0x1_0000_0000
    ensures NumberAt(b, LastFrom(RecordSize, b, p, p)) == LastSeq(rs[|rs| - 1].offset)
       <==> CameToLast(rs, torn, p) || SameByAccident(rs, b, p)
  {
    var number := LastSeq(rs[|rs| - 1].offset);
    var came := CameToLast(rs, torn, p);
    assert LastFrom(RecordSize, b, p, p) == LastPos(rs) <==> came by {
      ComesToLast(rs, torn, p);
    }
    assert came ==> NumberAt(b, LastPos(rs)) == number by {
      if came {
        NumberIfCame(rs, torn, b, p, number);
      }
    }
    ByPlace(came, b, LastFrom(RecordSize, b, p, p), LastPos(rs), number);
  }

  /**
   Opening goes on from the number of the last message exactly: after a full check, if nothing is torn and the file is
   not a single record off its base; after a check from a magic number found further on, if only whole records lie
   between it and the last one; and never when the search for one fails.
   */
  lemma RecoversLastNumber(rs: seq<Record>, base: nat, torn: seq<byte>)
    requires Orderly(rs, base) && RecordSize(torn) == 0
    requires rs != [] && rs[|rs| - 1].offset < 0x1_0000_0000
    ensures RecoveredFrom(Flat(rs) + torn, base) == LastSeq(rs[|rs| - 1].offset)
       <==> match ModeOf(Flat(rs) + torn)
            case FullCheck => torn == [] && (|rs| > 1 || rs[0].offset == base)
            case CheckFrom(p) => CameToLast(rs, torn, p) || SameByAccident(rs, Flat(rs) + torn, p)
            case SearchFails => false
  {
    OrderlyAll(rs, base);
    match ModeOf(Flat(rs) + torn)
    case FullCheck =>
      FullyChecked(rs, base, torn);
      ReopenedLastNumber(rs, base, torn);
    case CheckFrom(p) => FoundNumber(rs, torn, Flat(rs) + torn, p);
    case SearchFails =>
  }

  /** If the magic number found is that of a record, opening goes on from the last one. */
  lemma RecoversFromRecord(rs: seq<Record>, base: nat, k: nat)
    requires Orderly(rs, base) && k < |rs| && rs[|rs| - 1].offset < 0x1_0000_0000
    requires ModeOf(Flat(rs)) == CheckFrom(Pos(rs, k))
    ensures RecoveredFrom(Flat(rs), base) == LastSeq(rs[|rs| - 1].offset)
  {
    OrderlyAll(rs, base);
    RecordsComeToLast(rs, k);
    RecoversLastNumber(rs, base, []);
    assert Flat(rs) + [] == Flat(rs);
  }

  // ---------- intact files that are not opened rightly ----------

  lemma {:induction false} SmallDigit(n: nat, k: nat)
    ensures Digit(n, k) <= n
    decreases k
  {
    if k > 0 {
      SmallDigit(n / 256, k - 1);
    }
  }

  lemma SmallBytes(n: nat, width: nat)
    ensures forall d :: d in BigEndian(n, width) ==> d <= n
  {
    forall i | 0 <= i < width
      ensures BigEndian(n, width)[i] <= n
    {
      SmallDigit(n, width - 1 - i);
    }
  }

  lemma NoMagicBehindFirst(r: Record, e: seq<byte>)
    requires r.data == [] && 0 <= r.offset < 0x15 && r.appliIndex < 0x15 && e == Wrap(r)
    ensures forall i :: 1 <= i < MIN_LEN ==> e[i] != MAGIC[0]
  {
    SmallBytes(0, 4);
    SmallBytes(Unsigned64(r.offset), 8);
    SmallBytes(r.appliIndex, 8);
    var size, offset, appli := BigEndian(0, 4), BigEndian(Unsigned64(r.offset), 8), BigEndian(r.appliIndex, 8);
    assert e == MAGIC + VERSION + size + (offset + appli) + [] + END_MAGIC;
    forall i | 1 <= i < MIN_LEN
      ensures e[i] != MAGIC[0]
    {
      if 3 <= i < 7 {
        assert e[i] == size[i - 3] && size[i - 3] in size;
      } else if 7 <= i < 15 {
        assert e[i] == offset[i - 7] && offset[i - 7] in offset;
      } else if 15 <= i < 23 {
        assert e[i] == appli[i - 15] && appli[i - 15] in appli;
      }
    }
  }

  /** A small last record that starts one byte before the search does: the search runs past its end. */
  lemma SearchPastEnd(b: seq<byte>, h: seq<byte>, r: Record)
    requires b == h + Wrap(r) && |h| == LOG_MAX_SIZE + MIN_LEN - 1
    requires r.data == [] && 0 <= r.offset < 0x15 && r.appliIndex < 0x15
    ensures ModeOf(b) == SearchFails
  {
    var e := Wrap(r);
    var w := LOG_MAX_SIZE + MIN_LEN;
    NoMagicBehindFirst(r, e);
    assert b[|b| - 1..] == END_MAGIC;
    forall i {:trigger MagicAt(b, i)} | w <= i < |b|
      ensures !MagicAt(b, i)
    {
      assert b[i] == e[i - w + 1];
    }
    ProbeIs(b, w, SearchFails);
  }

  /** An intact log of two messages that cannot be opened. */
  lemma PanicsOnIntact(d: seq<byte>)
    requires |d| == LOG_MAX_SIZE - 1
    ensures var rs := [Record(1, 0, d), Record(2, 0, [])];
            Orderly(rs, 0) && RecoveredFrom(Flat(rs), 0) == Panics
  {
    var r, s := Record(1, 0, d), Record(2, 0, []);
    assert [r, s][..1] == [r] && [r][..0] == [];
    assert Flat([r]) == [] + Wrap(r);
    assert Flat([r, s]) == Flat([r]) + Wrap(s);
    SearchPastEnd(Flat([r, s]), Flat([r]), s);
  }

  /** Where the search starts stands what looks like a record: its number is taken for the last one. */
  lemma FindsRecord(b: seq<byte>, h: seq<byte>, x: Record, base: int)
    requires b == h + Wrap(x) && |h| == LOG_MAX_SIZE + MIN_LEN && |x.data| < TWO32
    ensures ModeOf(b) == CheckFrom(|h|) && RecoveredFrom(b, base) == LastSeq(x.offset % 0x1_0000_0000)
  {
    var p := |h|;
    assert b[p..] == Wrap(x) && b[|b| - 1..] == END_MAGIC;
    WrapIsFrame(x);
    assert Wrap(x)[..2] == Header(x)[..2] == MAGIC by {
      HeaderFields(x);
    }
    assert b[p..p + 2] == Wrap(x)[..2];
    assert MagicAt(b, p);
    assert LastFrom(RecordSize, b, p, p) == p;
    HoldsWhereWrapped(b, p, |b|, x);
    NumberOfHeld(b, p, x, LastSeq(x.offset % 0x1_0000_0000));
  }

  /**
   A message that ends like the header of a record is an intact log's last one, and decides what number comes next.
   */
  lemma ContentDecides(first: Record, last: Record, pad: seq<byte>, x: Record, base: int)
    requires first.data == x.data == [] && last.data == pad + Header(x) && |last.data| == LOG_MAX_SIZE
    ensures RecoveredFrom(Flat([first, last]), base) == LastSeq(x.offset % 0x1_0000_0000)
  {
    assert [first, last][..1] == [first] && [first][..0] == [];
    assert Flat([first]) == [] + Wrap(first);
    assert Flat([first, last]) == Flat([first]) + Wrap(last);
    var h := Flat([first]) + Header(last) + pad;
    assert Wrap(x) == Header(x) + END_MAGIC;
    assert Flat([first, last]) == h + Wrap(x);
    FindsRecord(Flat([first, last]), h, x, base);
  }

  // ---------- going on with appends ----------

  /** The check goes through to the end of the file. */
  ghost predicate ChecksThrough(b: seq<byte>) {
    match ModeOf(b)
    case FullCheck => true
    case CheckFrom(p) => WholeFrom(RecordSize, b, p) == |b|
    case SearchFails => false
  }

  /** Opened and checked, the files a run left can be appended to exactly if the check goes through to the end. */
  method OpenForAppend(f: SegmentFiles, base: int, ghost rs: seq<Record>, ghost cuts: set<nat>)
    returns (s: Segment, ok: bool)
    requires OnDisk(f, base, rs, cuts)
    ensures fresh(s) && fresh(s.index) && fresh(s.index.mmap) && s.baseOffset == base && s.recs == rs
    ensures ok <==> ModeOf(f.log) != SearchFails
    ensures s.Valid() && s.position == |s.file| <==> ChecksThrough(f.log)
  {
    s := OpenSegment(f, base, rs, cuts);
    IntactIsKept(rs, base);
    var start;
    ok, start := s.SanityCheck();
  }

  lemma IntactIsKept(rs: seq<Record>, base: int)
    requires Orderly(rs, base)
    ensures CheckedFile(Flat(rs)) == Flat(rs) && (CheckedEnd(Flat(rs)) == |Flat(rs)| <==> ChecksThrough(Flat(rs)))
  {
    OrderlyAll(rs, base);
    KeptOfClean(rs);
    assert Flat(rs)[..|Flat(rs)|] == Flat(rs);
  }
}
