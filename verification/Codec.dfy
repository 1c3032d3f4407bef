/** The encoder and decoder every message format is written with. */
module Codec {
  import opened Bytes

  /** A read: the value and the position behind it, too few bytes, or the crash of allocating a negative length. */
  datatype Parsed<+T> = Got(value: T, next: nat) | Short | Crash {
    predicate IsFailure() {
      !Got?
    }

    function PropagateFailure<U>(): Parsed<U>
      requires IsFailure()
    {
      if Short? then Short else Crash
    }

    function Extract(): (T, nat)
      requires Got?
    {
      (value, next)
    }
  }

  /** What a decoding call returns. */
  datatype Result<+T> = Ok(value: T) | Failed | Crashed {
    predicate IsFailure() {
      !Ok?
    }

    function PropagateFailure<U>(): Result<U>
      requires IsFailure()
    {
      if Failed? then Failed else Crashed
    }

    function Extract(): T
      requires Ok?
    {
      value
    }
  }

  // ---------- one value at a position of the input ----------

  function GetU8(b: seq<byte>, p: nat): (r: Parsed<u8>)
    ensures r.Got? ==> r.next <= |b|
  {
    if |b| < p + 1 then Short else Got(b[p], p + 1)
  }

  function GetI16(b: seq<byte>, p: nat): (r: Parsed<int>)
    ensures r.Got? ==> r.next <= |b|
  {
    if |b| < p + 2 then Short else Got(Signed16(U16At(b, p)), p + 2)
  }

  function GetI32(b: seq<byte>, p: nat): (r: Parsed<i32>)
    ensures r.Got? ==> r.next <= |b|
  {
    if |b| < p + 4 then Short else Got(Signed32(U32At(b, p)), p + 4)
  }

  function GetU32(b: seq<byte>, p: nat): (r: Parsed<u32>)
    ensures r.Got? ==> r.next <= |b|
  {
    if |b| < p + 4 then Short else Got(U32At(b, p), p + 4)
  }

  function GetI64(b: seq<byte>, p: nat): (r: Parsed<i64>)
    ensures r.Got? ==> r.next <= |b|
  {
    if |b| < p + 8 then Short else Got(Signed64(U64At(b, p)), p + 8)
  }

  /** A length-prefixed string; the length is a signed 16-bit integer. */
  function GetString(b: seq<byte>, p: nat): (r: Parsed<seq<byte>>)
    ensures r.Got? ==> r.next <= |b|
  {
    var (size, q) :- GetI16(b, p);
    if size < 0 then Crash
    else if q + size > |b| then Short
    else Got(b[q..q + size], q + size)
  }

  // ---------- fields, one after the other ----------

  /** What a format is made of; `FAll` is everything to the end of the input. */
  datatype Field =
    | FU8(u: u8) | FU32(w: u32) | FI32(i: i32) | FI64(l: i64) | FString(s: seq<byte>) | FAll(all: seq<byte>)

  datatype Kind = KU8 | KU32 | KI32 | KI64 | KString | KAll

  datatype Fields = FNil | FCons(head: Field, tail: Fields)

  datatype Kinds = KNil | KCons(head: Kind, tail: Kinds)

  function KindOf(f: Field): Kind {
    match f
    case FU8(_) => KU8
    case FU32(_) => KU32
    case FI32(_) => KI32
    case FI64(_) => KI64
    case FString(_) => KString
    case FAll(_) => KAll
  }

  function KindsOf(fs: Fields): Kinds {
    match fs
    case FNil => KNil
    case FCons(f, rest) => KCons(KindOf(f), KindsOf(rest))
  }

  function FieldBytes(f: Field): seq<byte> {
    match f
    case FU8(n) => [n]
    case FU32(n) => BigEndian(n, 4)
    case FI32(n) => BigEndian(Unsigned32(n), 4)
    case FI64(n) => BigEndian(Unsigned64(n), 8)
    case FString(s) => BigEndian(|s|, 2) + s
    case FAll(s) => s
  }

  function Put(fs: Fields): seq<byte> {
    match fs
    case FNil => []
    case FCons(f, rest) => FieldBytes(f) + Put(rest)
  }

  function GetField(k: Kind, b: seq<byte>, p: nat): (r: Parsed<Field>)
    ensures r.Got? ==> r.next <= |b|
  {
    match k
    case KU8 => var (n, q) :- GetU8(b, p); Got(FU8(n), q)
    case KU32 => var (n, q) :- GetU32(b, p); Got(FU32(n), q)
    case KI32 => var (n, q) :- GetI32(b, p); Got(FI32(n), q)
    case KI64 => var (n, q) :- GetI64(b, p); Got(FI64(n), q)
    case KString => var (s, q) :- GetString(b, p); Got(FString(s), q)
    case KAll => if p > |b| then Short else Got(FAll(b[p..]), |b|)
  }

  /** Reading fields of these kinds from position `p` on. */
  function Get(ks: Kinds, b: seq<byte>, p: nat): Result<Fields> {
    match ks
    case KNil => Ok(FNil)
    case KCons(k, rest) =>
      match GetField(k, b, p)
      case Got(f, q) => Before(f, Get(rest, b, q))
      case Short => Failed
      case Crash => Crashed
  }

  /** A field read before the others. */
  function Before(f: Field, r: Result<Fields>): Result<Fields> {
    var fs :- r;
    Ok(FCons(f, fs))
  }

  // ---------- reading back what was written ----------

  /** The bytes of `f` stand at position `p`. */
  ghost predicate Stands(b: seq<byte>, p: nat, f: seq<byte>) {
    p + |f| <= |b| && b[p..p + |f|] == f
  }

  lemma StandsParts(b: seq<byte>, p: nat, f: seq<byte>, g: seq<byte>)
    requires Stands(b, p, f + g)
    ensures Stands(b, p, f) && Stands(b, p + |f|, g)
  {
    var s := b[p..p + |f| + |g|];
    assert b[p..p + |f|] == s[..|f|];
    assert b[p + |f|..p + |f| + |g|] == s[|f|..];
  }

  lemma SameNumbers(b: seq<byte>, p: nat, f: seq<byte>)
    requires Stands(b, p, f)
    ensures |f| >= 2 ==> U16At(b, p) == U16At(f, 0)
    ensures |f| >= 4 ==> U32At(b, p) == U32At(f, 0)
    ensures |f| >= 8 ==> U64At(b, p) == U64At(f, 0)
  {
    assert forall k :: 0 <= k < |f| ==> f[k] == b[p + k];
  }

  /** A string is read back exactly when its length fits the signed header. */
  lemma GetsString(b: seq<byte>, p: nat, s: seq<byte>)
    requires Stands(b, p, BigEndian(|s|, 2) + s)
    ensures GetString(b, p) == Got(s, p + 2 + |s|) <==> |s| < 0x8000
  {
    U16RoundTrip(|s|);
    StandsParts(b, p, BigEndian(|s|, 2), s);
    SameNumbers(b, p, BigEndian(|s|, 2));
  }

  lemma GetsField(b: seq<byte>, p: nat, f: Field)
    requires Stands(b, p, FieldBytes(f))
    requires f.FString? ==> |f.s| < 0x8000
    requires f.FAll? ==> p + |f.all| == |b|
    ensures GetField(KindOf(f), b, p) == Got(f, p + |FieldBytes(f)|)
  {
    SameNumbers(b, p, FieldBytes(f));
    match f
    case FU8(n) => assert b[p..p + 1][0] == n;
    case FU32(n) => U32RoundTrip(n);
    case FI32(n) => I32RoundTrip(n);
    case FI64(n) => I64RoundTrip(n);
    case FString(s) => GetsString(b, p, s);
    case FAll(_) => assert b[p..] == b[p..|b|];
  }

  /** Strings short enough for their header. */
  ghost predicate Fitting(fs: Fields) {
    match fs
    case FNil => true
    case FCons(f, rest) => (f.FString? ==> |f.s| < 0x8000) && Fitting(rest)
  }

  /** Nothing behind a field that takes all. */
  ghost predicate Closed(fs: Fields) {
    match fs
    case FNil => true
    case FCons(f, rest) => (f.FAll? ==> rest.FNil?) && Closed(rest)
  }

  lemma GetsBefore(k: Kind, rest: Kinds, b: seq<byte>, p: nat, f: Field, q: nat, fs: Fields)
    requires GetField(k, b, p) == Got(f, q)
    ensures Get(KCons(k, rest), b, p) == Ok(FCons(f, fs)) <==> Get(rest, b, q) == Ok(fs)
  {
  }

  /** Fields are read back from the bytes they were written to exactly when every string fits its header. */
  lemma {:induction false} PutGet(fs: Fields, b: seq<byte>, p: nat)
    requires Closed(fs) && Stands(b, p, Put(fs)) && p + |Put(fs)| == |b|
    ensures Get(KindsOf(fs), b, p) == Ok(fs) <==> Fitting(fs)
  {
    match fs
    case FNil =>
    case FCons(f, rest) =>
      StandsParts(b, p, FieldBytes(f), Put(rest));
      if f.FString? && |f.s| >= 0x8000 {
        TooLong(f.s, KindsOf(rest), b, p, rest);
      } else {
        var q := p + |FieldBytes(f)|;
        GetsField(b, p, f);
        PutGet(rest, b, q);
        GetsBefore(KindOf(f), KindsOf(rest), b, p, f, q, rest);
      }
  }

  /** Whatever is read for a string that does not fit is another string. */
  lemma TooLong(s: seq<byte>, rest: Kinds, b: seq<byte>, p: nat, fs: Fields)
    requires |s| >= 0x8000
    ensures Get(KCons(KString, rest), b, p) != Ok(FCons(FString(s), fs))
  {
    if GetString(b, p).Got? {
      assert |GetString(b, p).value| < 0x8000;
    }
  }

  // ---------- formats are written down with these ----------

  function U8(n: u8, rest: Fields): (fs: Fields)
    ensures Fitting(fs) <==> Fitting(rest)
    ensures Closed(fs) <==> Closed(rest)
    ensures KindsOf(fs) == KCons(KU8, KindsOf(rest)) && |Put(fs)| == 1 + |Put(rest)|
  {
    FCons(FU8(n), rest)
  }

  function U32(n: u32, rest: Fields): (fs: Fields)
    ensures Fitting(fs) <==> Fitting(rest)
    ensures Closed(fs) <==> Closed(rest)
    ensures KindsOf(fs) == KCons(KU32, KindsOf(rest)) && |Put(fs)| == 4 + |Put(rest)|
  {
    FCons(FU32(n), rest)
  }

  function I32(n: i32, rest: Fields): (fs: Fields)
    ensures Fitting(fs) <==> Fitting(rest)
    ensures Closed(fs) <==> Closed(rest)
    ensures KindsOf(fs) == KCons(KI32, KindsOf(rest)) && |Put(fs)| == 4 + |Put(rest)|
  {
    FCons(FI32(n), rest)
  }

  function I64(n: i64, rest: Fields): (fs: Fields)
    ensures Fitting(fs) <==> Fitting(rest)
    ensures Closed(fs) <==> Closed(rest)
    ensures KindsOf(fs) == KCons(KI64, KindsOf(rest)) && |Put(fs)| == 8 + |Put(rest)|
  {
    FCons(FI64(n), rest)
  }

  function Str(s: seq<byte>, rest: Fields): (fs: Fields)
    ensures Fitting(fs) <==> |s| < 0x8000 && Fitting(rest)
    ensures Closed(fs) <==> Closed(rest)
    ensures KindsOf(fs) == KCons(KString, KindsOf(rest)) && |Put(fs)| == 2 + |s| + |Put(rest)|
  {
    FCons(FString(s), rest)
  }

  function All(s: seq<byte>): (fs: Fields)
    ensures Fitting(fs) && Closed(fs) && KindsOf(fs) == KCons(KAll, KNil) && Put(fs) == s
  {
    FCons(FAll(s), FNil)
  }

  /** A string behind its length in 16 bits. */
  function Sized(s: seq<byte>): seq<byte> {
    BigEndian(|s|, 2) + s
  }

  /** `done` has been written, and `x` comes next. */
  lemma Next(done: seq<byte>, x: seq<byte>, rest: seq<byte>, all: seq<byte>) returns (more: seq<byte>)
    requires all == x + rest
    ensures more == done + x && done + all == more + rest
  {
    more := done + x;
  }

  lemma PutU8(done: seq<byte>, n: u8, rest: Fields) returns (more: seq<byte>)
    ensures more == done + [n] && done + Put(U8(n, rest)) == more + Put(rest)
  {
    more := Next(done, [n], Put(rest), Put(U8(n, rest)));
  }

  lemma PutU32(done: seq<byte>, n: u32, rest: Fields) returns (more: seq<byte>)
    ensures more == done + BigEndian(n, 4) && done + Put(U32(n, rest)) == more + Put(rest)
  {
    more := Next(done, BigEndian(n, 4), Put(rest), Put(U32(n, rest)));
  }

  lemma PutI32(done: seq<byte>, n: i32, rest: Fields) returns (more: seq<byte>)
    ensures more == done + BigEndian(Unsigned32(n), 4) && done + Put(I32(n, rest)) == more + Put(rest)
  {
    more := Next(done, BigEndian(Unsigned32(n), 4), Put(rest), Put(I32(n, rest)));
  }

  lemma PutI64(done: seq<byte>, n: i64, rest: Fields) returns (more: seq<byte>)
    ensures more == done + BigEndian(Unsigned64(n), 8) && done + Put(I64(n, rest)) == more + Put(rest)
  {
    more := Next(done, BigEndian(Unsigned64(n), 8), Put(rest), Put(I64(n, rest)));
  }

  lemma PutStr(done: seq<byte>, s: seq<byte>, rest: Fields) returns (more: seq<byte>)
    ensures more == done + Sized(s) && done + Put(Str(s, rest)) == more + Put(rest)
  {
    more := Next(done, Sized(s), Put(rest), Put(Str(s, rest)));
  }

  // ---------- the two objects ----------

  /** An encoder that is to write the fields `rest` behind what it has written. */
  class Encoder {
    var bytes: seq<byte>
    ghost const whole: seq<byte>
    ghost var rest: Fields

    ghost predicate Valid()
      reads this
    {
      bytes + Put(rest) == whole
    }

    constructor (ghost fields: Fields)
      ensures Valid() && rest == fields && whole == Put(fields)
    {
      bytes, rest, whole := [], fields, Put(fields);
    }

    /** Everything has been written. */
    lemma Done()
      requires Valid() && rest.FNil?
      ensures bytes == whole
    {
    }

    method Write(s: seq<byte>)
      requires Valid() && rest.FCons? && s == FieldBytes(rest.head)
      modifies this
      ensures Valid() && rest == old(rest).tail
    {
      assert bytes + (s + Put(rest.tail)) == bytes + s + Put(rest.tail);
      bytes, rest := bytes + s, rest.tail;
    }

    method WriteUint8(n: u8)
      requires Valid() && rest.FCons? && rest.head == FU8(n)
      modifies this
      ensures Valid() && rest == old(rest).tail
    {
      Write([n]);
    }

    method WriteUint32(n: u32)
      requires Valid() && rest.FCons? && rest.head == FU32(n)
      modifies this
      ensures Valid() && rest == old(rest).tail
    {
      Write(BigEndian(n, 4));
    }

    method WriteInt32(n: i32)
      requires Valid() && rest.FCons? && rest.head == FI32(n)
      modifies this
      ensures Valid() && rest == old(rest).tail
    {
      Write(BigEndian(Unsigned32(n), 4));
    }

    method WriteInt64(n: i64)
      requires Valid() && rest.FCons? && rest.head == FI64(n)
      modifies this
      ensures Valid() && rest == old(rest).tail
    {
      Write(BigEndian(Unsigned64(n), 8));
    }

    method WriteString(s: seq<byte>)
      requires Valid() && rest.FCons? && rest.head == FString(s)
      modifies this
      ensures Valid() && rest == old(rest).tail
    {
      if |s| == 0 {
        assert BigEndian(0, 2) == BigEndian(|s|, 2) + s;
        Write(BigEndian(0, 2));
      } else {
        Write(BigEndian(|s|, 2) + s);
      }
    }

    method WriteBytes(s: seq<byte>)
      requires Valid() && rest.FCons? && rest.head == FAll(s)
      modifies this
      ensures Valid() && rest == old(rest).tail
    {
      Write(s);
    }
  }

  /** A decoder that is to read fields of the kinds `rest`; `ahead` is what reading them gives. */
  class Decoder {
    const data: seq<byte>
    var position: nat
    ghost var rest: Kinds
    ghost var ahead: Result<Fields>

    /** Stated with this trigger so that a reader of fields need not look into how they are read. */
    ghost predicate Valid()
      reads this
    {
      position <= |data| && forall ks {:trigger Get(ks, data, position)} :: ks == rest ==>
        ahead == Get(ks, data, position)
    }

    constructor (data: seq<byte>, ghost layout: Kinds)
      ensures Valid() && position == 0 && this.data == data && rest == layout && ahead == Get(layout, data, 0)
    {
      this.data, position, rest, ahead := data, 0, layout, Get(layout, data, 0);
    }

    /** Everything has been read. */
    lemma Done()
      requires Valid() && rest.KNil?
      ensures ahead == Ok(FNil)
    {
      assert ahead == Get(rest, data, position);
    }

    method Uint8() returns (r: Result<u8>)
      requires Valid() && rest.KCons? && rest.head == KU8
      modifies this
      ensures r.Ok? ==> Valid() && rest == old(rest).tail
      ensures old(ahead) == match r case Ok(n) => Before(FU8(n), ahead) case Failed => Failed case Crashed => Crashed
      ensures r.Ok? ==> old(position) < |data| && r.value == data[old(position)]
    {
      assert ahead == Get(rest, data, position);
      if |data| < position + 1 {
        return Failed;
      }
      position := position + 1;
      r := Ok(data[position - 1]);
      rest, ahead := rest.tail, Get(rest.tail, data, position);
    }

    method Int32() returns (r: Result<i32>)
      requires Valid() && rest.KCons? && rest.head == KI32
      modifies this
      ensures r.Ok? ==> Valid() && rest == old(rest).tail
      ensures old(ahead) == match r case Ok(n) => Before(FI32(n), ahead) case Failed => Failed case Crashed => Crashed
    {
      assert ahead == Get(rest, data, position);
      if |data| < position + 4 {
        return Failed;
      }
      position := position + 4;
      r := Ok(Signed32(U32At(data, position - 4)));
      rest, ahead := rest.tail, Get(rest.tail, data, position);
    }

    method Uint32() returns (r: Result<u32>)
      requires Valid() && rest.KCons? && rest.head == KU32
      modifies this
      ensures r.Ok? ==> Valid() && rest == old(rest).tail
      ensures old(ahead) == match r case Ok(n) => Before(FU32(n), ahead) case Failed => Failed case Crashed => Crashed
    {
      assert ahead == Get(rest, data, position);
      if |data| < position + 4 {
        return Failed;
      }
      position := position + 4;
      r := Ok(U32At(data, position - 4));
      rest, ahead := rest.tail, Get(rest.tail, data, position);
    }

    method Int64() returns (r: Result<i64>)
      requires Valid() && rest.KCons? && rest.head == KI64
      modifies this
      ensures r.Ok? ==> Valid() && rest == old(rest).tail
      ensures old(ahead) == match r case Ok(n) => Before(FI64(n), ahead) case Failed => Failed case Crashed => Crashed
    {
      assert ahead == Get(rest, data, position);
      if |data| < position + 8 {
        return Failed;
      }
      position := position + 8;
      r := Ok(Signed64(U64At(data, position - 8)));
      rest, ahead := rest.tail, Get(rest.tail, data, position);
    }

    method String() returns (r: Result<seq<byte>>)
      requires Valid() && rest.KCons? && rest.head == KString
      modifies this
      ensures r.Ok? ==> Valid() && rest == old(rest).tail
      ensures old(ahead) == match r
                            case Ok(s) => Before(FString(s), ahead)
                            case Failed => Failed
                            case Crashed => Crashed
    {
      assert ahead == Get(rest, data, position);
      if |data| < position + 2 {
        return Failed;
      }
      var size := Signed16(U16At(data, position));
      if size < 0 {
        return Crashed;
      }
      var start, end: nat := position + 2, position + 2 + size;
      if end > |data| {
        return Failed;
      }
      position := end;
      r := Ok(data[start..end]);
      rest, ahead := rest.tail, Get(rest.tail, data, end);
    }

    method BinaryAll() returns (r: seq<byte>)
      requires Valid() && rest.KCons? && rest.head == KAll
      modifies this
      ensures Valid() && rest == old(rest).tail && old(ahead) == Before(FAll(r), ahead)
    {
      assert ahead == Get(rest, data, position);
      r := data[position..];
      position := |data|;
      rest, ahead := rest.tail, Get(rest.tail, data, |data|);
    }
  }
}
