/** A connection's incoming bytes: cutting whole frames off its buffer and decoding them. */
module Connection {
  import opened Bytes
  import opened Framing
  import opened Packets
  import opened Protocol

  predicate Single(header: byte) {
    header / 16 == PING || header / 16 == PONG
  }

  /** The size of the frame a length code announces behind its header byte. */
  function Announced(l: Length): nat {
    match l
    case Broken => 0
    case Whole(n, digits) => 1 + digits + n
    case Endless(n) => 5 + n
  }

  /** The size of the whole frame at the head of a buffer, 0 when there is none. */
  function FrameLen(b: seq<byte>): nat {
    if b == [] then 0
    else if Single(b[0]) then 1
    else
      var n := Announced(LengthAt(b[1..], 0, 0, 0));
      if n <= |b| then n else 0
  }

  // ---------- frames do not depend on what follows them ----------

  /** How many bytes a length code takes. */
  function DigitsOf(l: Length): nat {
    match l
    case Whole(_, digits) => digits
    case _ => 4
  }

  lemma {:induction false} LengthExtends(b: seq<byte>, c: seq<byte>, digits: nat, sum: nat)
    requires !LengthAt(b, 0, digits, sum).Broken?
    ensures LengthAt(b + c, 0, digits, sum) == LengthAt(b, 0, digits, sum)
    decreases 4 - digits
  {
    if digits < 4 && b[digits] >= 0x80 {
      LengthExtends(b, c, digits + 1, sum + Shifted(Low7(b[digits]), digits));
    }
  }

  lemma {:induction false} LengthCut(b: seq<byte>, n: nat, digits: nat, sum: nat)
    requires n <= |b| && digits <= 4
    requires !LengthAt(b, 0, digits, sum).Broken? && DigitsOf(LengthAt(b, 0, digits, sum)) <= n
    ensures LengthAt(b[..n], 0, digits, sum) == LengthAt(b, 0, digits, sum)
    ensures digits < 4 ==> digits < DigitsOf(LengthAt(b, 0, digits, sum))
    decreases 4 - digits
  {
    var cut := b[..n];
    assert digits < n ==> cut[digits] == b[digits];
    if digits < 4 && b[digits] >= 0x80 {
      LengthCut(b, n, digits + 1, sum + Shifted(Low7(b[digits]), digits));
    }
  }

  lemma FrameLenExtends(b: seq<byte>, c: seq<byte>)
    requires FrameLen(b) > 0
    ensures FrameLen(b + c) == FrameLen(b)
  {
    if !Single(b[0]) {
      LengthExtends(b[1..], c, 0, 0);
      assert (b + c)[1..] == b[1..] + c;
    }
  }

  lemma FrameLenCut(b: seq<byte>, n: nat)
    requires 0 < FrameLen(b) <= n <= |b|
    ensures FrameLen(b[..n]) == FrameLen(b)
  {
    if !Single(b[0]) {
      LengthCut(b[1..], n - 1, 0, 0);
      assert b[..n][1..] == b[1..][..n - 1];
    }
  }

  lemma FrameLenIsPrefixCode()
    ensures PrefixCode(FrameLen)
  {
    forall b: seq<byte>, c: seq<byte> | FrameLen(b) > 0
      ensures FrameLen(b + c) == FrameLen(b)
    {
      FrameLenExtends(b, c);
    }
    forall b: seq<byte>, n: nat | 0 < FrameLen(b) <= n <= |b|
      ensures FrameLen(b[..n]) == FrameLen(b)
    {
      FrameLenCut(b, n);
    }
  }

  // ---------- the unpacker ----------

  /** The unpacker's own length decoder: the length and its digits, or nothing when the input ends first. */
  method UnpackLength(data: seq<byte>) returns (length: nat, size: nat, has: bool)
    ensures match LengthAt(data, 0, 0, 0)
            case Whole(n, digits) => has && length == n && size == digits
            case Endless(n) => has && length == n && size == 4
            case Broken => !has
  {
    length := 0;
    var multiplier, offset: nat := 0, 0;
    while multiplier < 27
      invariant multiplier == 7 * offset && offset <= 4
      invariant LengthAt(data, 0, 0, 0) == LengthAt(data, 0, offset, length)
      decreases 4 - offset
    {
      if offset >= |data| {
        return 0, 0, false;
      }
      var digit := data[offset];
      offset := offset + 1;
      length := length + Shifted(Low7(digit), multiplier / 7);
      if digit < 0x80 {
        break;
      }
      multiplier := multiplier + 7;
    }
    size, has := offset, true;
  }

  /** `cut` is the frame length; the trigger keeps its definition out of the loop below. */
  ghost predicate CutsFrames(cut: Cutter) {
    forall b {:trigger FrameLen(b)} :: cut(b) == FrameLen(b)
  }

  /** The checks of one round: the size of the frame at `offset`, 0 when it is not whole yet. */
  method NextFrame(buff: seq<byte>, offset: nat, ghost cut: Cutter) returns (n: nat)
    requires offset < |buff| && CutsFrames(cut)
    ensures n == cut(buff[offset..])
  {
    assert cut(buff[offset..]) == FrameLen(buff[offset..]);
    if Single(buff[offset]) {
      return 1;
    }
    assert buff[offset..][1..] == buff[offset + 1..];
    var length, size, has := UnpackLength(buff[offset + 1..]);
    if !has {
      return 0;
    }
    n := size + length + 1;
    if |buff| < offset + n {
      return 0;
    }
  }

  lemma OneRound(cut: Cutter, b: seq<byte>, p: nat, n: nat)
    requires p < |b| && n == cut(b[p..]) <= |b| - p
    ensures WholeFrom(cut, b, p) == if n > 0 then WholeFrom(cut, b, p + n) else p
  {
  }

  /** The whole frames at the head of a buffer. */
  method WholeFrames(buff: seq<byte>, ghost cut: Cutter) returns (packetData: seq<byte>)
    requires CutsFrames(cut) && forall b :: cut(b) <= |b|
    ensures packetData == buff[..WholeLen(cut, buff)]
  {
    ghost var whole := WholeLen(cut, buff);
    WalkFromStart(cut, buff);
    var offset := 0;
    packetData := [];
    while offset < |buff|
      invariant offset <= |buff| && packetData == buff[..offset]
      invariant WholeFrom(cut, buff, offset) == whole
      decreases |buff| - offset
    {
      var n := NextFrame(buff, offset, cut);
      OneRound(cut, buff, offset, n);
      if n == 0 {
        break;
      }
      packetData := packetData + buff[offset..offset + n];
      offset := offset + n;
    }
  }

  class Conn {
    var buffer: seq<byte>

    constructor ()
      ensures buffer == []
    {
      buffer := [];
    }

    /** Bytes arrive from the network. */
    method Receive(chunk: seq<byte>)
      modifies this
      ensures buffer == old(buffer) + chunk
    {
      buffer := buffer + chunk;
    }

    method ShiftN(n: nat)
      requires n <= |buffer|
      modifies this
      ensures buffer == old(buffer)[n..]
    {
      buffer := buffer[n..];
    }

    /** Takes the longest prefix of whole frames off the buffer and leaves the rest. */
    method Unpack() returns (packetData: seq<byte>)
      modifies this
      ensures packetData == old(buffer)[..WholeLen(FrameLen, old(buffer))]
      ensures buffer == old(buffer)[WholeLen(FrameLen, old(buffer))..]
    {
      packetData := WholeFrames(buffer, FrameLen);
      if |packetData| > 0 {
        ShiftN(|packetData|);
      }
    }
  }

  // ---------- chunks ----------

  /** What repeated unpacking emits while chunk after chunk arrives. */
  ghost function Emitted(cut: Cutter, b: seq<byte>, chunks: seq<seq<byte>>): seq<byte>
    decreases |chunks|
  {
    if chunks == [] then []
    else
      var all := b + chunks[0];
      var w := WholeLen(cut, all);
      all[..w] + Emitted(cut, all[w..], chunks[1..])
  }

  /** What is left in the buffer then. */
  ghost function Buffered(cut: Cutter, b: seq<byte>, chunks: seq<seq<byte>>): seq<byte>
    decreases |chunks|
  {
    if chunks == [] then b
    else
      var all := b + chunks[0];
      Buffered(cut, all[WholeLen(cut, all)..], chunks[1..])
  }

  lemma NextChunk(cut: Cutter, b: seq<byte>, chunks: seq<seq<byte>>, all: seq<byte>)
    requires chunks != [] && all == b + chunks[0]
    ensures b + Concat(chunks) == all + Concat(chunks[1..])
    ensures var w := WholeLen(cut, all);
            && Emitted(cut, b, chunks) == all[..w] + Emitted(cut, all[w..], chunks[1..])
            && Buffered(cut, b, chunks) == Buffered(cut, all[w..], chunks[1..])
  {
    assert b + (chunks[0] + Concat(chunks[1..])) == b + chunks[0] + Concat(chunks[1..]);
  }

  lemma OneChunk(all: seq<byte>, w: nat, later: seq<byte>, more: nat)
    requires w <= |all| && more <= |all[w..] + later|
    ensures (all + later)[..w + more] == all[..w] + (all[w..] + later)[..more]
    ensures (all + later)[w + more..] == (all[w..] + later)[more..]
  {
    assert all + later == all[..w] + (all[w..] + later);
  }

  lemma NothingWhole(cut: Cutter, b: seq<byte>)
    requires PrefixCode(cut)
    ensures WholeLen(cut, b[WholeLen(cut, b)..]) == 0
  {
    var frames := WholePrefixIsFramed(cut, b);
  }

  /** `data` and `rest` are the whole frames of a stream and what follows them. */
  ghost predicate Unpacked(cut: Cutter, stream: seq<byte>, data: seq<byte>, rest: seq<byte>) {
    data == stream[..WholeLen(cut, stream)] && rest == stream[WholeLen(cut, stream)..]
  }

  lemma UnpackedLater(cut: Cutter, all: seq<byte>, later: seq<byte>, data: seq<byte>, rest: seq<byte>)
    requires PrefixCode(cut) && Unpacked(cut, all[WholeLen(cut, all)..] + later, data, rest)
    ensures Unpacked(cut, all + later, all[..WholeLen(cut, all)] + data, rest)
  {
    var w := WholeLen(cut, all);
    WholeLenExtends(cut, all, later);
    OneChunk(all, w, later, WholeLen(cut, all[w..] + later));
  }

  /**
   How a stream is split into chunks makes no difference: what is emitted is the longest prefix made of whole
   frames, and exactly the rest stays buffered.
   */
  lemma {:induction false} ChunksDoNotMatter(cut: Cutter, b: seq<byte>, chunks: seq<seq<byte>>)
    requires PrefixCode(cut) && WholeLen(cut, b) == 0
    ensures Unpacked(cut, b + Concat(chunks), Emitted(cut, b, chunks), Buffered(cut, b, chunks))
    decreases |chunks|
  {
    if chunks == [] {
      assert b + Concat(chunks) == b;
    } else {
      var all, later := b + chunks[0], Concat(chunks[1..]);
      var rest := all[WholeLen(cut, all)..];
      NextChunk(cut, b, chunks, all);
      NothingWhole(cut, all);
      ChunksDoNotMatter(cut, rest, chunks[1..]);
      UnpackedLater(cut, all, later, Emitted(cut, rest, chunks[1..]), Buffered(cut, rest, chunks[1..]));
    }
  }

  /** The connection's side of it: every chunk is received, then unpacked. */
  method Feed(c: Conn, chunks: seq<seq<byte>>) returns (data: seq<byte>)
    modifies c
    ensures data == Emitted(FrameLen, old(c.buffer), chunks)
    ensures c.buffer == Buffered(FrameLen, old(c.buffer), chunks)
  {
    data := [];
    var i := 0;
    ghost var rest := chunks;
    while i < |chunks|
      invariant i <= |chunks| && rest == chunks[i..]
      invariant data + Emitted(FrameLen, c.buffer, rest) == Emitted(FrameLen, old(c.buffer), chunks)
      invariant Buffered(FrameLen, c.buffer, rest) == Buffered(FrameLen, old(c.buffer), chunks)
    {
      NextChunk(FrameLen, c.buffer, rest, c.buffer + chunks[i]);
      c.Receive(chunks[i]);
      var more := c.Unpack();
      data, rest, i := data + more, rest[1..], i + 1;
    }
  }
}
