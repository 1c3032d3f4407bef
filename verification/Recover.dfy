/** Reading the messages of a backup stream back. */
module LogRecover {
  import opened Bytes
  import opened LogRecord
  import opened Codec
  import opened MessageModel
  import opened FlatLog
  import opened LogBackup
  import opened Options

  /** What one round of reading comes to. */
  datatype Step = Read(message: Message) | Finished | Ignored | Failed | Crashed

  /** An in-memory reader. */
  class Reader {
    const data: seq<byte>
    var position: nat

    constructor (data: seq<byte>)
      ensures this.data == data && position == 0
    {
      this.data, position := data, 0;
    }

    /** `Read`: as many bytes as there are, an error at the end. */
    method Read(n: nat) returns (eof: bool, b: seq<byte>)
      requires position <= |data|
      modifies this
      ensures eof <==> old(position) == |data|
      ensures position == if eof || old(position) + n > |data| then |data| else old(position) + n
      ensures b == data[old(position)..position]
    {
      if position >= |data| {
        return true, [];
      }
      var end := if position + n <= |data| then position + n else |data|;
      eof, b := false, data[position..end];
      position := end;
    }

    /** `binary.Read`: exactly `n` bytes or an error. */
    method ReadFull(n: nat) returns (ok: bool, b: seq<byte>)
      requires position <= |data| && n > 0
      modifies this
      ensures old(position) <= position <= |data|
      ensures ok <==> old(position) + n <= |data|
      ensures ok ==> position == old(position) + n && b == data[old(position)..position]
    {
      var eof;
      eof, b := Read(n);
      ok := |b| == n;
    }
  }

  /** What is recovered of a message: its apply index is left out. */
  function Recovered(m: Message): Message {
    m.(appliIndex := 0)
  }

  ghost predicate IsStep(data: seq<byte>, r: Step) {
    match r
    case Read(m) => IsStored(data, 0, Ok(m))
    case Failed => IsStored(data, 0, Result.Failed)
    case Crashed => IsStored(data, 0, Result.Crashed)
    case _ => false
  }

  /** A stored message is recovered, apart from its apply index. */
  lemma RecoversMessage(m: Message, r: Step)
    requires Fits(m)
    ensures IsStep(Put(StoredFields(m)), r) <==> r == Read(Recovered(m))
  {
    MessageRoundTrip(m, 0, match r case Read(v) => Ok(v) case Failed => Result.Failed case _ => Result.Crashed);
  }

  /** The content of the record at `p`, if a whole one stands there: version, offset and apply index do not matter. */
  function ContentAt(b: seq<byte>, p: nat): Option<seq<byte>> {
    if p + MIN_LEN > |b| || b[p..p + 2] != MAGIC then None
    else
      var end := p + 23 + SizeField(b, p);
      if end + 1 > |b| || b[end..end + 1] != END_MAGIC then None else Some(b[p + 23..end])
  }

  lemma ContentOfHeld(b: seq<byte>, p: nat, r: Record)
    requires HoldsAt(b, p, r) && |r.data| < TWO32
    ensures ContentAt(b, p) == Some(r.data)
  {
    HeldFields(b, p, r);
  }

  datatype Header = Length(n: u32) | NoVersion | Broken

  /** The header behind the magic number; offset and apply index are read past. */
  method ReadHeader(reader: Reader) returns (r: Header)
    requires 2 <= reader.position <= |reader.data|
    modifies reader
    ensures old(reader.position) <= reader.position <= |reader.data|
    ensures var p := old(reader.position);
            if p == |reader.data| then r == NoVersion
            else if p + 21 > |reader.data| then r == Header.Broken
            else r == Length(SizeField(reader.data, p - 2)) && reader.position == p + 21
  {
    ghost var p := reader.position;
    var eof, version := reader.Read(1);
    if eof {
      return NoVersion;
    }
    var ok, dataLen := reader.ReadFull(4);
    if !ok {
      return Header.Broken;
    }
    SameU32(reader.data, p + 1, dataLen);
    var offset, appliIndex;
    ok, offset := reader.ReadFull(8);
    if !ok {
      return Header.Broken;
    }
    ok, appliIndex := reader.ReadFull(8);
    if !ok {
      return Header.Broken;
    }
    r := Length(U32At(dataLen, 0));
  }

  /** The content and the end magic number; content cut short is filled up with zeros, and the end is missing then. */
  method ReadContent(reader: Reader, n: u32) returns (ok: bool, data: seq<byte>)
    requires reader.position <= |reader.data|
    modifies reader
    ensures old(reader.position) <= reader.position <= |reader.data|
    ensures var p := old(reader.position);
            && (ok <==> p + n + 1 <= |reader.data| && reader.data[p + n..p + n + 1] == END_MAGIC)
            && (ok ==> data == reader.data[p..p + n] && reader.position == p + n + 1)
  {
    var eof, end;
    eof, data := reader.Read(n);
    if eof {
      return false, [];
    }
    data := data + seq(n - |data|, _ => 0);
    eof, end := reader.Read(1);
    ok := !eof && end == END_MAGIC;
  }

  /**
   `recoverMessage`: one record, wherever the reader stands. It is finished at the end, ignores a magic number that
   ends the stream, and fails on everything else that is no whole record.
   */
  method RecoverMessage(reader: Reader) returns (r: Step)
    requires reader.position <= |reader.data|
    modifies reader
    ensures reader.position <= |reader.data| && (r != Finished ==> reader.position > old(reader.position))
    ensures var b, p := reader.data, old(reader.position);
            if p == |b| then r == Finished && reader.position == |b|
            else if b[p..] == MAGIC then r == Ignored && reader.position == |b|
            else match ContentAt(b, p)
                 case Some(content) => IsStep(content, r) && reader.position == p + MIN_LEN + |content|
                 case None => r == Step.Failed
    ensures var b, p := reader.data, old(reader.position);
            && (p < |b| && (p + 2 > |b| || b[p..p + 2] != [0x15, 0x16]) ==> r == Step.Failed)
            && (p + 2 < |b| < p + 24 ==> r == Step.Failed)
            && (p + 24 <= |b| ==>
                  var end := p + 23 + U32At(b, p + 3); end >= |b| || b[end] != 0x03 ==> r == Step.Failed)
  {
    var eof, magic := reader.Read(2);
    if eof {
      return Finished;
    }
    if magic != MAGIC {
      return Step.Failed;
    }
    var header := ReadHeader(reader);
    match header
    case NoVersion => r := Ignored;
    case Broken => r := Step.Failed;
    case Length(n) =>
      var ok, data := ReadContent(reader, n);
      if !ok {
        return Step.Failed;
      }
      var m := UnmarshalMessage(data, 0);
      r := match m case Ok(v) => Read(v) case Failed => Step.Failed case Crashed => Step.Crashed;
  }

  // ---------- the whole stream ----------

  function RecordOf(m: Message): Record {
    Record(m.messageSeq, m.appliIndex, Put(StoredFields(m)))
  }

  function RecordsOf(ms: seq<Message>): (rs: seq<Record>)
    ensures |rs| == |ms|
  {
    seq(|ms|, i requires 0 <= i < |ms| => RecordOf(ms[i]))
  }

  function RecoveredAll(ms: seq<Message>): (qs: seq<Message>)
    ensures |qs| == |ms|
  {
    seq(|ms|, i requires 0 <= i < |ms| => Recovered(ms[i]))
  }

  /** Messages a log takes: short strings, records below the size limit. */
  ghost predicate AllStorable(ms: seq<Message>) {
    forall i :: 0 <= i < |ms| ==> Fits(ms[i]) && |Put(StoredFields(ms[i]))| <= LOG_MAX_SIZE
  }

  /** The bytes from `p` to `end` are whole records, and their contents are these messages. */
  ghost predicate Holds(b: seq<byte>, p: nat, ms: seq<Message>, end: nat)
    decreases |ms|
  {
    if ms == [] then end == p
    else
      match ContentAt(b, p)
      case Some(content) => IsStored(content, 0, Ok(ms[0])) && Holds(b, p + MIN_LEN + |content|, ms[1..], end)
      case None => false
  }

  /** Nothing is left, or a magic number only. */
  predicate Exhausted(b: seq<byte>, p: nat) {
    p == |b| || (p < |b| && b[p..] == MAGIC)
  }

  /** No message can be read at `p`. */
  ghost predicate NoMessage(b: seq<byte>, p: nat) {
    forall m :: ContentAt(b, p).Some? ==> !IsStored(ContentAt(b, p).value, 0, Ok(m))
  }

  /** The whole stream is these messages. */
  ghost predicate IsStream(b: seq<byte>, ms: seq<Message>) {
    exists end :: Holds(b, 0, ms, end) && Exhausted(b, end)
  }

  lemma {:induction false} HoldsMore(b: seq<byte>, p: nat, ms: seq<Message>, q: nat, content: seq<byte>, m: Message)
    requires Holds(b, p, ms, q) && ContentAt(b, q) == Some(content) && IsStored(content, 0, Ok(m))
    ensures Holds(b, p, ms + [m], q + MIN_LEN + |content|)
    decreases |ms|
  {
    var more, next := ms + [m], q + MIN_LEN + |content|;
    if ms == [] {
      assert more[1..] == [] && Holds(b, next, [], next);
    } else {
      HoldsMore(b, p + MIN_LEN + |ContentAt(b, p).value|, ms[1..], q, content, m);
      assert more[1..] == ms[1..] + [m];
    }
  }

  lemma StoredOnce(content: seq<byte>, m: Message, m': Message)
    requires IsStored(content, 0, Ok(m)) && IsStored(content, 0, Ok(m'))
    ensures m == m'
  {
    assert ReadsStored(content, Get(StoredLayout(), content, 0));
    StoredFieldsDetermine(m, m');
  }

  /** The messages up to where none can be read are determined. */
  lemma {:induction false} OneReading(b: seq<byte>, p: nat, ms: seq<Message>, end: nat, ms': seq<Message>, end': nat)
    requires Holds(b, p, ms, end) && Holds(b, p, ms', end') && NoMessage(b, end) && NoMessage(b, end')
    ensures ms == ms' && end == end'
    decreases |ms|
  {
    if ms != [] && ms' != [] {
      var content := ContentAt(b, p).value;
      StoredOnce(content, ms[0], ms'[0]);
      OneReading(b, p + MIN_LEN + |content|, ms[1..], end, ms'[1..], end');
      assert ms == [ms[0]] + ms[1..] && ms' == [ms'[0]] + ms'[1..];
    }
  }

  /** When reading has come as far as it can, the stream is what has been read, or no stream of messages at all. */
  lemma StreamIsRead(b: seq<byte>, read: seq<Message>, end: nat, ms: seq<Message>)
    requires Holds(b, 0, read, end) && NoMessage(b, end)
    ensures IsStream(b, ms) <==> Exhausted(b, end) && ms == read
  {
    if IsStream(b, ms) {
      var e :| Holds(b, 0, ms, e) && Exhausted(b, e);
      OneReading(b, 0, read, end, ms, e);
    }
  }

  /** What one round says about the place it was at. */
  lemma RoundSays(b: seq<byte>, p: nat, r: Step)
    requires p < |b| && b[p..] != MAGIC
    requires match ContentAt(b, p) case Some(content) => IsStep(content, r) case None => r == Step.Failed
    ensures !r.Read? ==> NoMessage(b, p) && (r.Failed? || r.Crashed?)
    ensures r.Read? ==> ContentAt(b, p).Some? && IsStored(ContentAt(b, p).value, 0, Ok(r.message))
  {
    match ContentAt(b, p)
    case None =>
    case Some(content) =>
      assert ReadsStored(content, Get(StoredLayout(), content, 0));
  }

  /**
   `recoverMessages`: every round reads one message. For any bytes it succeeds exactly on a stream of messages, and
   gives these; otherwise it has given those before the first place where none can be read.
   */
  method RecoverMessages(reader: Reader) returns (ok: bool, read: seq<Message>, ghost end: nat)
    requires reader.position == 0
    modifies reader
    ensures Holds(reader.data, 0, read, end) && NoMessage(reader.data, end) && (ok <==> Exhausted(reader.data, end))
    ensures forall ms :: IsStream(reader.data, ms) <==> ok && ms == read
  {
    ghost var b := reader.data;
    read, end := [], 0;
    ok := true;
    while true
      invariant reader.position <= |b| && Holds(b, 0, read, end)
      invariant reader.position == end || (reader.position == |b| && Exhausted(b, end))
      decreases |b| - reader.position
    {
      ghost var p := reader.position;
      var r := RecoverMessage(reader);
      if r.Finished? {
        break;
      }
      if p < |b| && b[p..] != MAGIC {
        RoundSays(b, p, r);
      }
      if r.Failed? || r.Crashed? {
        ok := false;
        break;
      }
      if r.Read? {
        HoldsMore(b, 0, read, p, ContentAt(b, p).value, r.message);
        read, end := read + [r.message], reader.position;
      }
    }
    forall ms {
      StreamIsRead(b, read, end, ms);
    }
  }

  lemma HoldsFirst(b: seq<byte>, p: nat, q: nat, content: seq<byte>, m: Message, ms: seq<Message>, end: nat)
    requires ContentAt(b, p) == Some(content) && q == p + MIN_LEN + |content|
    requires Fits(m) && content == Put(StoredFields(m)) && Holds(b, q, ms, end)
    ensures Holds(b, p, [Recovered(m)] + ms, end)
  {
    RecoversMessage(m, Read(Recovered(m)));
    assert ([Recovered(m)] + ms)[1..] == ms;
  }

  lemma HeldMessage(b: seq<byte>, ms: seq<Message>, k: nat) returns (p: nat, q: nat, content: seq<byte>)
    requires AllStorable(ms) && k < |ms| && StartsWith(b, RecordsOf(ms))
    ensures ContentAt(b, p) == Some(content) && Fits(ms[k]) && content == Put(StoredFields(ms[k]))
    ensures p == Pos(RecordsOf(ms), k) && q == Pos(RecordsOf(ms), k + 1) && q == p + MIN_LEN + |content|
  {
    var r := RecordOf(ms[k]);
    p, q, content := Pos(RecordsOf(ms), k), Pos(RecordsOf(ms), k + 1), r.data;
    assert HoldsAt(b, p, RecordsOf(ms)[k]);
    ContentOfHeld(b, p, r);
  }

  /** The messages from `k` on, before those from `k + 1` on. */
  lemma HoldsFrom(b: seq<byte>, ms: seq<Message>, k: nat, end: nat)
    requires AllStorable(ms) && k < |ms| && StartsWith(b, RecordsOf(ms))
    requires Holds(b, Pos(RecordsOf(ms), k + 1), RecoveredAll(ms)[k + 1..], end)
    ensures Holds(b, Pos(RecordsOf(ms), k), RecoveredAll(ms)[k..], end)
  {
    var p, q, content := HeldMessage(b, ms, k);
    HoldsFirst(b, p, q, content, ms[k], RecoveredAll(ms)[k + 1..], end);
    assert RecoveredAll(ms)[k..] == [Recovered(ms[k])] + RecoveredAll(ms)[k + 1..];
  }

  lemma {:induction false} HoldsMessages(b: seq<byte>, ms: seq<Message>, k: nat)
    requires AllStorable(ms) && k <= |ms| && StartsWith(b, RecordsOf(ms))
    ensures Holds(b, Pos(RecordsOf(ms), k), RecoveredAll(ms)[k..], Pos(RecordsOf(ms), |ms|))
    decreases |ms| - k
  {
    if k < |ms| {
      HoldsMessages(b, ms, k + 1);
      HoldsFrom(b, ms, k, Pos(RecordsOf(ms), |ms|));
    }
  }

  /**
   A stream of whole records followed by less than one more: the messages of the whole ones are recovered, in order,
   apart from their apply index, and it is a success exactly when nothing or just the magic number is behind them.
   */
  lemma RecoversTorn(b: seq<byte>, ms: seq<Message>, torn: seq<byte>, rec: Record, read: seq<Message>, end: nat)
    requires b == Flat(RecordsOf(ms)) + torn && AllStorable(ms) && IsTorn(torn, rec) && |rec.data| < TWO32
    requires Holds(b, 0, read, end) && NoMessage(b, end)
    ensures read == RecoveredAll(ms) && (Exhausted(b, end) <==> torn == [] || torn == MAGIC)
  {
    var rs := RecordsOf(ms);
    assert Storable(rs);
    PosOfAll(rs);
    FlatStarts(rs, torn);
    HoldsMessages(b, ms, 0);
    TornPiece(Flat(rs), torn, rec);
    NoContent(b, |Flat(rs)|);
    OneReading(b, 0, read, end, RecoveredAll(ms), |Flat(rs)|);
    assert b[|Flat(rs)|..] == torn;
  }

  lemma NoContent(b: seq<byte>, p: nat)
    requires !PieceAt(b, p).Whole?
    ensures ContentAt(b, p).None?
  {
  }

  /** Backing a topic up and recovering it: the messages of all its segments, in order, apart from their apply index. */
  method BackupAndRecover(scanner: Scanner, disk: Disk, paths: seq<string>, ghost parts: seq<seq<Record>>,
                          ghost ms: seq<Message>)
    returns (ok: bool, read: seq<Message>)
    requires scanner.Closed() && "" !in paths && HoldTopic(disk, paths, parts)
    requires Joined(parts) == RecordsOf(ms) && AllStorable(ms)
    modifies scanner
    ensures ok && read == RecoveredAll(ms)
  {
    BackupIsFlat(disk, ScansOf(disk), paths, parts);
    var w, failed := BackupMessages(scanner, disk, paths, ScansOf(disk));
    var reader := new Reader(w);
    ghost var end;
    ok, read, end := RecoverMessages(reader);
    RecoversTorn(w, ms, [], Record(0, 0, []), read, end);
  }
}
