/** What the sanity checks keep of a segment file, and where they say the last message starts. */
module LogRepair {
  import opened Bytes
  import opened Framing
  import opened LogRecord

  /** The longest prefix that splits into whole records. */
  ghost function Kept(b: seq<byte>): (n: nat)
    ensures n <= |b|
  {
    WholeLen(RecordSize, b)
  }

  lemma KeptIsLongest(b: seq<byte>, n: nat)
    requires n <= |b|
    ensures Framed(RecordSize, b[..Kept(b)])
    ensures Framed(RecordSize, b[..n]) ==> n <= Kept(b)
  {
    RecordSizeIsPrefixCode();
    var frames := WholePrefixIsFramed(RecordSize, b);
    if Framed(RecordSize, b[..n]) {
      LongestFramedPrefix(RecordSize, b, n);
    }
  }

  /** Repairing twice keeps what repairing once keeps. */
  lemma KeptTwice(b: seq<byte>)
    ensures Kept(b[..Kept(b)]) == Kept(b)
  {
    RecordSizeIsPrefixCode();
    var frames := WholePrefixIsFramed(RecordSize, b);
    WholeLenOfFrames(RecordSize, frames, []);
    assert Concat(frames) + [] == b[..Kept(b)];
  }

  /** Whole records followed by less than one more: exactly the whole records are kept. */
  lemma KeptOfTorn(rs: seq<Record>, torn: seq<byte>)
    requires Storable(rs) && RecordSize(torn) == 0
    ensures Kept(Flat(rs) + torn) == |Flat(rs)|
  {
    RecordSizeIsPrefixCode();
    var frames := FlatIsFrames(rs);
    WholeLenOfFrames(RecordSize, frames, torn);
  }

  lemma KeptOfClean(rs: seq<Record>)
    requires Storable(rs)
    ensures Kept(Flat(rs)) == |Flat(rs)|
  {
    KeptOfTorn(rs, []);
    assert Flat(rs) + [] == Flat(rs);
  }

  /** The parser reports the last record of a clean file, and the first damaged byte of any other. */
  lemma LastStartOfFile(rs: seq<Record>, torn: seq<byte>)
    requires Storable(rs) && RecordSize(torn) == 0
    ensures LastStart(RecordSize, Flat(rs) + torn) == if torn == [] && rs != [] then Pos(rs, |rs| - 1) else |Flat(rs)|
  {
    RecordSizeIsPrefixCode();
    if torn != [] {
      var frames := FlatIsFrames(rs);
      LastStartOfFrames(RecordSize, frames, torn);
    } else if rs != [] {
      var n := |rs| - 1;
      var init := FlatIsFrames(rs[..n]);
      WrapIsFrame(rs[n]);
      LastStartOfFrames(RecordSize, init, Wrap(rs[n]));
      FlatPrefix(rs, n);
      assert Flat(rs) + torn == Flat(rs);
    }
  }

  /** The checks of one round, made on the file in place. */
  lemma RecordSizeAt(b: seq<byte>, p: nat)
    requires p <= |b|
    ensures RecordSize(b[p..])
         == if |b| - p < 2 || b[p] != MAGIC[0] || b[p + 1] != MAGIC[1] || p + 7 >= |b| then 0
            else if p + MIN_LEN + U32At(b, p + 3) > |b| then 0
            else MIN_LEN + U32At(b, p + 3)
  {
    var tail := b[p..];
    assert |tail| >= 2 ==> (tail[..2] == MAGIC <==> tail[0] == MAGIC[0] && tail[1] == MAGIC[1]);
  }

  // ---------- which check is made ----------

  /** The whole file is parsed, or the part from a magic number on; or the search for one fails. */
  datatype CheckMode = FullCheck | CheckFrom(start: nat) | SearchFails

  predicate MagicAt(b: seq<byte>, p: nat) {
    p + 2 <= |b| && b[p..p + 2] == MAGIC
  }

  /** `sanitySimpleCheck` looks at every other position; the last byte alone cannot be read as a magic number. */
  function Probe(b: seq<byte>, p: nat): (mode: CheckMode)
    ensures mode.CheckFrom? ==> p <= mode.start && mode.start + 2 <= |b|
    decreases |b| - p
  {
    if p >= |b| then FullCheck
    else if p + 2 > |b| then SearchFails
    else if MagicAt(b, p) then CheckFrom(p) else Probe(b, p + 2)
  }

  /**
   `SanityCheck`: only a file longer than the longest record that ends as a record does is not parsed from its start.
   */
  function ModeOf(b: seq<byte>): (mode: CheckMode)
    ensures mode.CheckFrom? ==> LOG_MAX_SIZE + MIN_LEN <= mode.start && mode.start + 2 <= |b|
  {
    if b == [] || b[|b| - 1..] != END_MAGIC || |b| <= LOG_MAX_SIZE + MIN_LEN then FullCheck
    else Probe(b, LOG_MAX_SIZE + MIN_LEN)
  }

  ghost predicate NoMagicUpTo(b: seq<byte>, p: nat, q: nat) {
    forall i {:trigger MagicAt(b, i)} :: p <= i < q && (i - p) % 2 == 0 ==> !MagicAt(b, i)
  }

  /** The first magic number at an even distance; without one, the parity of the length decides. */
  lemma {:induction false} ProbeIs(b: seq<byte>, p: nat, mode: CheckMode)
    requires p <= |b|
    ensures Probe(b, p) == mode <==> match mode
              case CheckFrom(q) => p <= q && (q - p) % 2 == 0 && MagicAt(b, q) && NoMagicUpTo(b, p, q)
              case FullCheck => (|b| - p) % 2 == 0 && NoMagicUpTo(b, p, |b|)
              case SearchFails => (|b| - p) % 2 == 1 && NoMagicUpTo(b, p, |b|)
    decreases |b| - p
  {
    if p + 2 <= |b| && !MagicAt(b, p) {
      ProbeIs(b, p + 2, mode);
      assert forall q {:trigger NoMagicUpTo(b, p, q)} :: p + 2 <= q ==>
        NoMagicUpTo(b, p, q) == NoMagicUpTo(b, p + 2, q) by {
        forall q | p + 2 <= q
          ensures NoMagicUpTo(b, p, q) == NoMagicUpTo(b, p + 2, q)
        {
        }
      }
    }
  }

  /** What opening a topic makes of its last segment: the sequence number to go on from, or a crash. */
  datatype Recovered = LastSeq(last: int) | Panics

  /** The number that stands where the check says the last message starts, if there is room for one. */
  ghost function NumberAt(b: seq<byte>, start: nat): Recovered {
    if start + 15 > |b| then Panics else LastSeq(OffsetField(b, start) % 0x1_0000_0000)
  }

  /** The number a topic goes on from when its last segment's file holds these bytes. */
  ghost function RecoveredFrom(b: seq<byte>, base: int): Recovered {
    match ModeOf(b)
    case SearchFails => Panics
    case CheckFrom(p) => NumberAt(b, LastFrom(RecordSize, b, p, p))
    case FullCheck =>
      var start := LastStart(RecordSize, b);
      if start == 0 then LastSeq(base % 0x1_0000_0000) else NumberAt(b[..Kept(b)], start)
  }

  /** What the check leaves of the file: only the full one cuts. */
  ghost function CheckedFile(b: seq<byte>): seq<byte> {
    if ModeOf(b).FullCheck? then b[..Kept(b)] else b
  }

  /** Where it says the last message starts. */
  ghost function CheckedStart(b: seq<byte>): nat {
    match ModeOf(b)
    case FullCheck => LastStart(RecordSize, b)
    case CheckFrom(p) => LastFrom(RecordSize, b, p, p)
    case SearchFails => 0
  }

  /** The position appends go on from: the end of the whole records, if there are any. */
  ghost function CheckedEnd(b: seq<byte>): nat {
    match ModeOf(b)
    case FullCheck => Kept(b)
    case CheckFrom(p) => var end := WholeFrom(RecordSize, b, p); if end == p then 0 else end
    case SearchFails => 0
  }

  lemma CheckedStartIs(b: seq<byte>)
    ensures ModeOf(b).CheckFrom? ==> ModeOf(b).start <= CheckedStart(b) < |b|
  {
    if ModeOf(b).CheckFrom? {
      RecordSizeIsPrefixCode();
      var frames := LastFromIsFramed(RecordSize, b, ModeOf(b).start, ModeOf(b).start);
    }
  }
}
