/** From the bytes of a connection to its packets. */
module Incoming {
  import opened Bytes
  import opened Framing
  import opened Packets
  import opened Protocol
  import opened Connection

  /** The length code ends within its four digits. */
  predicate Ended(f: seq<byte>) {
    f != [] && (Single(f[0]) || LengthAt(f[1..], 0, 0, 0).Whole?)
  }

  /**
   What handling received bytes comes to: the packets, the connection closed, a crash, or a loop that never gets on.
   */
  datatype Outcome = Delivered(packets: seq<Packet>) | Closed | Crashed | Stuck

  // ---------- decoding frame by frame ----------

  /** The two length decoders agree on a frame whose length code ends. */
  lemma DecodingOfFrame(f: seq<byte>, rest: seq<byte>, version: u8, r: Decoded)
    requires FrameLen(f) == |f| && Ended(f)
    ensures IsDecoding(f + rest, version, r) <==> IsDecoding(f, version, r)
    ensures IsDecoding(f, version, r) ==> r != Incomplete && (r.Frame? ==> r.size == |f|)
  {
    DecodingIs(f, version, r);
    DecodingIs(f + rest, version, r);
    assert (f + rest)[0] == f[0];
    if !Single(f[0]) {
      var l := LengthAt(f[1..], 0, 0, 0);
      LengthExtends(f[1..], rest, 0, 0);
      assert (f + rest)[1..] == f[1..] + rest;
      SameBody(f, rest, 1 + l.digits, l.value, version, r);
    }
  }

  lemma SameDecoding(f: seq<byte>, rest: seq<byte>, version: u8, r: Decoded)
    requires FrameLen(f) == |f| && Ended(f)
    ensures IsDecoding(f + rest, version, r) <==> IsDecoding(f, version, r)
  {
    DecodingOfFrame(f, rest, version, r);
  }

  lemma SameBody(f: seq<byte>, rest: seq<byte>, start: nat, n: nat, version: u8, r: Decoded)
    requires start + n == |f| && start > 0
    ensures IsDecodingAt(f + rest, version, start, n, r) <==> IsDecodingAt(f, version, start, n, r)
    ensures IsDecodingAt(f, version, start, n, r) ==> r != Incomplete && (r.Frame? ==> r.size == |f|)
  {
    assert FirstByte(f + rest) == FirstByte(f);
    assert (f + rest)[start..start + n] == f[start..start + n];
  }

  /** A whole frame whose length code never ends, and which announces no more than a packet may hold. */
  predicate Stalls(f: seq<byte>) {
    !Ended(f) && f != [] && var l := LengthAt(f[1..], 0, 0, 0); l.Endless? && l.value <= 0x10_0000
  }

  /**
   Behind four digits that all ask for more the unpacker has counted four of them and the decoder counts five, so
   that the decoder misses one byte of the frame: decoding a whole frame is incomplete exactly then.
   */
  lemma IncompleteFrame(f: seq<byte>, version: u8)
    requires FrameLen(f) == |f| > 0
    ensures IsDecoding(f, version, Incomplete) <==> Stalls(f)
    ensures !Ended(f) ==> forall p, n :: !IsDecoding(f, version, Frame(p, n))
  {
    if Ended(f) {
      DecodingOfFrame(f, [], version, Incomplete);
    } else {
      LengthBounds(f[1..], 0, 0, 0);
      forall r
        ensures IsDecoding(f, version, r) <==> DecodesTo(f, LengthCode(f), version, r)
      {
        DecodingIs(f, version, r);
      }
    }
  }

  /** SEND with four digits that all ask for more and say zero. */
  lemma StallingFrame()
    ensures FrameLen([0x30, 0x80, 0x80, 0x80, 0x80]) == 5 && Stalls([0x30, 0x80, 0x80, 0x80, 0x80])
  {
    var f: seq<byte>, digits: seq<byte> := [0x30, 0x80, 0x80, 0x80, 0x80], [0x80, 0x80, 0x80, 0x80];
    assert f[1..] == digits;
    assert LengthAt(digits, 0, 4, 0) == Endless(0);
    assert LengthAt(digits, 0, 3, 0) == Endless(0);
    assert LengthAt(digits, 0, 2, 0) == Endless(0);
    assert LengthAt(digits, 0, 1, 0) == Endless(0);
  }

  lemma PacketSize(data: seq<byte>, version: u8, p: Packet, n: nat)
    requires IsDecoding(data, version, Frame(p, n))
    ensures 0 < n <= |data|
  {
    DecodingIs(data, version, Frame(p, n));
  }

  // ---------- any received bytes ----------

  predicate AllConnect(ps: seq<Packet>) {
    forall i :: 0 <= i < |ps| ==> ps[i].Connect?
  }

  /** Packet after packet decoded at the head of what is left, the last one up to `at`. */
  ghost predicate Taken(data: seq<byte>, version: u8, ps: seq<Packet>, at: nat) {
    if ps == [] then at == 0
    else exists from: nat :: Taken(data, version, ps[..|ps| - 1], from) && LastTaken(data, version, ps, from, at)
  }

  ghost predicate LastTaken(data: seq<byte>, version: u8, ps: seq<Packet>, from: nat, at: nat)
    requires ps != []
  {
    from < at <= |data| && IsDecoding(data[from..], version, Frame(ps[|ps| - 1], at - from))
  }

  /** What the loop does with a decoding it does not get on from: behind an incomplete one it decodes the same again. */
  ghost predicate Ends(d: Decoded, noAuth: bool, out: Outcome) {
    match d
    case Frame(p, _) => noAuth && !p.Connect? && out == Closed
    case Incomplete => out == if noAuth then Crashed else Stuck
    case Invalid => out == Closed
    case Panic => out == Crashed
  }

  ghost predicate StopsBehind(data: seq<byte>, version: u8, noAuth: bool, ps: seq<Packet>, at: nat, d: Decoded,
                              out: Outcome) {
    && Taken(data, version, ps, at) && (noAuth ==> AllConnect(ps)) && at < |data|
    && IsDecoding(data[at..], version, d) && Ends(d, noAuth, out)
  }

  /** What handling these bytes comes to, on a connection that is authenticated or not. */
  ghost predicate Handles(data: seq<byte>, version: u8, noAuth: bool, out: Outcome) {
    match out
    case Delivered(ps) => Taken(data, version, ps, |data|) && (noAuth ==> AllConnect(ps))
    case _ => exists ps, at: nat, d :: StopsBehind(data, version, noAuth, ps, at, d, out)
  }

  lemma TakesMore(data: seq<byte>, version: u8, ps: seq<Packet>, at: nat, p: Packet, n: nat)
    requires Taken(data, version, ps, at) && at < |data| && IsDecoding(data[at..], version, Frame(p, n))
    ensures Taken(data, version, ps + [p], at + n) && at < at + n <= |data|
  {
    PacketSize(data[at..], version, p, n);
    assert (ps + [p])[..|ps|] == ps;
    assert LastTaken(data, version, ps + [p], at, at + n);
  }

  /** Decodes packet after packet, whatever the bytes are. */
  method OnPacket(data: seq<byte>, version: u8, noAuth: bool) returns (out: Outcome)
    ensures Handles(data, version, noAuth, out)
  {
    var offset := 0;
    var packets: seq<Packet> := [];
    while offset < |data|
      invariant offset <= |data| && Taken(data, version, packets, offset) && (noAuth ==> AllConnect(packets))
      decreases |data| - offset
    {
      var packet := DecodePacket(data[offset..], version);
      if packet.Invalid? {
        assert StopsBehind(data, version, noAuth, packets, offset, packet, Closed);
        return Closed;
      }
      if packet.Panic? || (packet.Incomplete? && noAuth) {
        assert StopsBehind(data, version, noAuth, packets, offset, packet, Crashed);
        return Crashed;
      }
      if packet.Incomplete? {
        assert StopsBehind(data, version, noAuth, packets, offset, packet, Stuck);
        return Stuck;
      }
      if noAuth && !packet.packet.Connect? {
        assert StopsBehind(data, version, noAuth, packets, offset, packet, Closed);
        return Closed;
      }
      TakesMore(data, version, packets, offset, packet.packet, packet.size);
      packets := packets + [packet.packet];
      offset := offset + packet.size;
    }
    out := Delivered(packets);
  }

  /** On one whole frame the loop of an authenticated connection never gets on exactly if the frame stalls. */
  lemma StuckOnFrame(f: seq<byte>, version: u8)
    requires FrameLen(f) == |f| > 0
    ensures Handles(f, version, false, Stuck) <==> Stalls(f)
    ensures Stalls(f) ==> Handles(f, version, true, Crashed)
  {
    IncompleteFrame(f, version);
    assert f[0..] == f;
    if Stalls(f) {
      assert StopsBehind(f, version, false, [], 0, Incomplete, Stuck);
      assert StopsBehind(f, version, true, [], 0, Incomplete, Crashed);
    }
    if Handles(f, version, false, Stuck) {
      var ps, at: nat, d :| StopsBehind(f, version, false, ps, at, d, Stuck);
      if ps != [] {
        var n := FirstTaken(f, version, ps, at);
        DecodingOfWhole(f, version, ps[0], n);
      }
    }
  }

  /** A packet decoded from a whole frame takes all of it. */
  lemma DecodingOfWhole(f: seq<byte>, version: u8, p: Packet, n: nat)
    requires FrameLen(f) == |f| > 0 && IsDecoding(f, version, Frame(p, n))
    ensures n == |f|
  {
    IncompleteFrame(f, version);
    if Ended(f) {
      DecodingOfFrame(f, [], version, Frame(p, n));
    }
  }

  lemma {:induction false} FirstTaken(data: seq<byte>, version: u8, ps: seq<Packet>, at: nat) returns (n: nat)
    requires Taken(data, version, ps, at) && ps != []
    ensures n <= at <= |data| && IsDecoding(data, version, Frame(ps[0], n))
  {
    var init := ps[..|ps| - 1];
    var from: nat :| Taken(data, version, init, from) && LastTaken(data, version, ps, from, at);
    if init == [] {
      n := at;
      assert data[0..] == data;
    } else {
      n := FirstTaken(data, version, init, from);
    }
  }

  // ---------- whole frames whose length codes end ----------

  /** The frames decode to these packets, one by one. */
  ghost predicate DecodesAll(frames: seq<seq<byte>>, version: u8, ps: seq<Packet>) {
    |ps| == |frames| && forall i :: 0 <= i < |ps| ==> IsDecoding(frames[i], version, Frame(ps[i], |frames[i]|))
  }

  /** The first frames decode, and the next one ends the loop. */
  ghost predicate StopsAt(frames: seq<seq<byte>>, ps: seq<Packet>, d: Decoded, version: u8, noAuth: bool,
                          out: Outcome) {
    && |ps| < |frames| && DecodesAll(frames[..|ps|], version, ps) && (noAuth ==> AllConnect(ps))
    && IsDecoding(frames[|ps|], version, d)
    && Ends(d, noAuth, out)
  }

  /** What handling these frames comes to, on a connection that is authenticated or not. */
  ghost predicate IsHandling(frames: seq<seq<byte>>, version: u8, noAuth: bool, out: Outcome) {
    match out
    case Delivered(ps) => DecodesAll(frames, version, ps) && (noAuth ==> AllConnect(ps))
    case _ => exists ps, d :: StopsAt(frames, ps, d, version, noAuth, out)
  }

  ghost predicate AllEnded(frames: seq<seq<byte>>) {
    forall i :: 0 <= i < |frames| ==> Ended(frames[i])
  }

  lemma DecodesMore(frames: seq<seq<byte>>, version: u8, ps: seq<Packet>, p: Packet)
    requires |ps| < |frames| && DecodesAll(frames[..|ps|], version, ps)
    requires IsDecoding(frames[|ps|], version, Frame(p, |frames[|ps|]|))
    ensures DecodesAll(frames[..|ps| + 1], version, ps + [p])
  {
  }

  lemma NextOf(frames: seq<seq<byte>>, n: nat, data: seq<byte>)
    requires n < |frames| && data == Concat(frames[n..])
    ensures data == frames[n] + Concat(frames[n + 1..])
  {
    assert frames[n..][1..] == frames[n + 1..];
  }

  /** Every packet is cut off at the end of a frame. */
  lemma {:induction false} TakesFrames(frames: seq<seq<byte>>, version: u8, ps: seq<Packet>, at: nat)
    requires AllFrames(FrameLen, frames) && AllEnded(frames) && Taken(Concat(frames), version, ps, at)
    ensures |ps| <= |frames| && at <= |Concat(frames)|
    ensures Concat(frames)[at..] == Concat(frames[|ps|..]) && DecodesAll(frames[..|ps|], version, ps)
    decreases |ps|
  {
    var data := Concat(frames);
    if ps == [] {
      assert frames[0..] == frames && data[0..] == data;
    } else {
      var init, p := ps[..|ps| - 1], ps[|ps| - 1];
      var from: nat :| Taken(data, version, init, from) && LastTaken(data, version, ps, from, at);
      TakesFrames(frames, version, init, from);
      TakesFrame(frames, version, init, p, from, at);
      assert init + [p] == ps;
    }
  }

  lemma TakesWhole(f: seq<byte>, rest: seq<byte>, version: u8, p: Packet, n: nat)
    requires FrameLen(f) == |f| && Ended(f) && IsDecoding(f + rest, version, Frame(p, n))
    ensures n == |f| && IsDecoding(f, version, Frame(p, |f|)) && (f + rest)[n..] == rest
  {
    DecodingOfFrame(f, rest, version, Frame(p, n));
  }

  lemma TakesFrame(frames: seq<seq<byte>>, version: u8, ps: seq<Packet>, p: Packet, from: nat, at: nat)
    requires AllFrames(FrameLen, frames) && AllEnded(frames) && |ps| <= |frames|
    requires from < at <= |Concat(frames)| && IsDecoding(Concat(frames)[from..], version, Frame(p, at - from))
    requires Concat(frames)[from..] == Concat(frames[|ps|..]) && DecodesAll(frames[..|ps|], version, ps)
    ensures |ps| + 1 <= |frames| && DecodesAll(frames[..|ps| + 1], version, ps + [p])
    ensures Concat(frames)[at..] == Concat(frames[|ps| + 1..])
  {
    var n, data := |ps|, Concat(frames);
    assert n < |frames|;
    var f, rest := frames[n], Concat(frames[n + 1..]);
    assert data[from..] == f + rest by {
      NextOf(frames, n, data[from..]);
    }
    TakesWhole(f, rest, version, p, at - from);
    BehindFrame(data, from, at, f, rest);
    DecodesMore(frames, version, ps, p);
  }

  lemma BehindFrame(data: seq<byte>, from: nat, at: nat, f: seq<byte>, rest: seq<byte>)
    requires from <= at <= |data| && data[from..] == f + rest && |f| == at - from
    ensures data[at..] == rest
  {
    assert data[at..] == data[from..][at - from..];
  }

  /** Handling whole frames whose length codes end goes frame by frame, and always gets on. */
  lemma HandlingOfFrames(frames: seq<seq<byte>>, version: u8, noAuth: bool, out: Outcome)
    requires AllFrames(FrameLen, frames) && AllEnded(frames) && Handles(Concat(frames), version, noAuth, out)
    ensures IsHandling(frames, version, noAuth, out) && out != Stuck
  {
    var data := Concat(frames);
    match out
    case Delivered(ps) =>
      TakesFrames(frames, version, ps, |data|);
      AllTaken(frames, |ps|);
      assert frames[..|ps|] == frames;
    case _ =>
      var ps, at: nat, d :| StopsBehind(data, version, noAuth, ps, at, d, out);
      TakesFrames(frames, version, ps, at);
      var n := |ps|;
      NextOf(frames, n, data[at..]);
      SameDecoding(frames[n], Concat(frames[n + 1..]), version, d);
      assert StopsAt(frames, ps, d, version, noAuth, out);
      DecodingOfFrame(frames[n], [], version, d);
  }

  lemma AllTaken(frames: seq<seq<byte>>, n: nat)
    requires AllFrames(FrameLen, frames) && n <= |frames| && Concat(frames[n..]) == []
    ensures n == |frames|
  {
    if n < |frames| {
      NextOf(frames, n, []);
    }
  }

  // ---------- streams of encoded packets ----------

  function Encodings(ps: seq<Packet>, version: u8): (frames: seq<seq<byte>>)
    ensures |frames| == |ps|
  {
    seq(|ps|, i requires 0 <= i < |ps| => Encoded(ps[i], version))
  }

  function ReceivedAll(ps: seq<Packet>, version: u8): (qs: seq<Packet>)
    ensures |qs| == |ps|
  {
    seq(|ps|, i requires 0 <= i < |ps| => Received(ps[i], version))
  }

  predicate AllSendable(ps: seq<Packet>, version: u8) {
    forall i :: 0 <= i < |ps| ==> Sendable(ps[i], version)
  }

  /** The unpacker cuts an encoded packet off as one frame. */
  lemma EncodedIsFrame(p: Packet, version: u8)
    requires Sendable(p, version)
    ensures FrameLen(Encoded(p, version)) == |Encoded(p, version)| > 0 && Ended(Encoded(p, version))
  {
    var e, body := Encoded(p, version), Body(p, version);
    if p.Ping? || p.Pong? {
      assert e == [HeaderOf(p)];
    } else {
      HeaderSays(p);
      BodyIsNotEmpty(p, version);
      assert e + [] == e;
      LengthCodeIs(HeaderOf(p), body, [], e);
    }
  }

  lemma EncodingsAreFrames(ps: seq<Packet>, version: u8)
    requires AllSendable(ps, version)
    ensures AllFrames(FrameLen, Encodings(ps, version)) && AllEnded(Encodings(ps, version))
  {
    forall i | 0 <= i < |ps|
      ensures 0 < |Encodings(ps, version)[i]| == FrameLen(Encodings(ps, version)[i]) && Ended(Encodings(ps, version)[i])
    {
      EncodedIsFrame(ps[i], version);
    }
  }

  lemma DecodesEncoded(p: Packet, version: u8, r: Decoded)
    requires Sendable(p, version)
    ensures IsDecoding(Encoded(p, version), version, r) <==> r == Frame(Received(p, version), |Encoded(p, version)|)
  {
    PacketRoundTrip(p, version, [], r);
    assert Encoded(p, version) + [] == Encoded(p, version);
  }

  lemma DecodesEncodings(ps: seq<Packet>, version: u8, qs: seq<Packet>)
    requires AllSendable(ps, version) && |qs| <= |ps| && DecodesAll(Encodings(ps, version)[..|qs|], version, qs)
    ensures qs == ReceivedAll(ps, version)[..|qs|]
  {
    forall i | 0 <= i < |qs|
      ensures qs[i] == Received(ps[i], version)
    {
      var f := Encodings(ps, version)[..|qs|][i];
      assert IsDecoding(f, version, Frame(qs[i], |f|));
      DecodesEncoded(ps[i], version, Frame(qs[i], |f|));
    }
  }

  lemma ReceivedKind(p: Packet, version: u8)
    ensures Received(p, version).Connect? == p.Connect?
  {
  }

  lemma SameConnects(ps: seq<Packet>, version: u8)
    ensures AllConnect(ReceivedAll(ps, version)) <==> AllConnect(ps)
  {
    var qs := ReceivedAll(ps, version);
    forall i | 0 <= i < |ps|
      ensures qs[i].Connect? == ps[i].Connect?
    {
      ReceivedKind(ps[i], version);
    }
  }

  /**
   Handling the encodings of sendable packets delivers exactly these packets, in order, as far as the version
   carries them; on a connection that is not authenticated, if and only if all of them are CONNECT packets, and
   otherwise the connection is closed.
   */
  lemma EndToEnd(ps: seq<Packet>, version: u8, noAuth: bool, out: Outcome)
    requires AllSendable(ps, version) && IsHandling(Encodings(ps, version), version, noAuth, out)
    ensures out == if noAuth && !AllConnect(ps) then Closed else Delivered(ReceivedAll(ps, version))
  {
    var frames := Encodings(ps, version);
    match out
    case Delivered(qs) =>
      assert frames[..|qs|] == frames;
      DecodesEncodings(ps, version, qs);
      assert qs == ReceivedAll(ps, version);
      SameConnects(ps, version);
    case _ =>
      var qs, d :| StopsAt(frames, qs, d, version, noAuth, out);
      var p := ps[|qs|];
      ReceivedKind(p, version);
      DecodesEncoded(p, version, d);
  }

  // ---------- a whole stream, however it arrives ----------

  /** A part of a stream of frames is cut at frame bounds. */
  lemma {:induction false} CutAtBounds(cut: Cutter, b: seq<byte>, later: seq<byte>, frames: seq<seq<byte>>)
    returns (m: nat)
    requires PrefixCode(cut) && AllFrames(cut, frames) && b + later == Concat(frames)
    ensures m <= |frames| && b[..WholeLen(cut, b)] == Concat(frames[..m])
    ensures b[WholeLen(cut, b)..] + later == Concat(frames[m..])
    decreases |frames|
  {
    if frames == [] || |b| < |frames[0]| {
      m := 0;
      if frames != [] {
        var f := frames[0];
        assert (b + later)[..|f|] == f && (b + later)[..|f|] == b + later[..|f| - |b|];
      }
      assert frames[0..] == frames && b[0..] == b;
    } else {
      var f := frames[0];
      var b' := b[|f|..];
      CutOff(b, later, f, Concat(frames[1..]));
      var m' := CutAtBounds(cut, b', later, frames[1..]);
      m := m' + 1;
      OneFrame(cut, f, b', later, frames, m');
    }
  }

  lemma CutOff(b: seq<byte>, later: seq<byte>, f: seq<byte>, rest: seq<byte>)
    requires b + later == f + rest && |f| <= |b|
    ensures b == f + b[|f|..] && b[|f|..] + later == rest
  {
    assert (b + later)[..|f|] == f;
    assert b[|f|..] + later == (b + later)[|f|..];
  }

  lemma OneFrame(cut: Cutter, f: seq<byte>, b: seq<byte>, later: seq<byte>, frames: seq<seq<byte>>, m: nat)
    requires PrefixCode(cut) && 0 < |f| == cut(f) && frames != [] && f == frames[0] && m < |frames|
    requires b[..WholeLen(cut, b)] == Concat(frames[1..][..m])
    requires b[WholeLen(cut, b)..] + later == Concat(frames[1..][m..])
    ensures (f + b)[..WholeLen(cut, f + b)] == Concat(frames[..m + 1])
    ensures (f + b)[WholeLen(cut, f + b)..] + later == Concat(frames[m + 1..])
  {
    assert cut(f + b) == |f| && (f + b)[|f|..] == b;
    assert frames[..m + 1][1..] == frames[1..][..m] && frames[1..][m..] == frames[m + 1..];
    assert (f + b)[..|f| + WholeLen(cut, b)] == f + b[..WholeLen(cut, b)];
    assert (f + b)[|f| + WholeLen(cut, b)..] == b[WholeLen(cut, b)..];
  }

  lemma NothingLeft(cut: Cutter, frames: seq<seq<byte>>)
    requires PrefixCode(cut) && AllFrames(cut, frames) && WholeLen(cut, Concat(frames)) == 0
    ensures frames == []
  {
    WholeLenOfFrames(cut, frames, []);
    assert Concat(frames) + [] == Concat(frames);
  }

  lemma EncodingsPart(ps: seq<Packet>, version: u8, m: nat)
    requires m <= |ps|
    ensures Encodings(ps, version)[..m] == Encodings(ps[..m], version)
    ensures Encodings(ps, version)[m..] == Encodings(ps[m..], version)
    ensures ReceivedAll(ps, version) == ReceivedAll(ps[..m], version) + ReceivedAll(ps[m..], version)
  {
  }

  /** One chunk is received, unpacked and handled: the packets it completes are delivered. */
  method ServeChunk(c: Conn, chunk: seq<byte>, version: u8, ghost ps: seq<Packet>, ghost later: seq<byte>)
    returns (packets: seq<Packet>, ghost m: nat)
    requires AllSendable(ps, version) && c.buffer + chunk + later == Concat(Encodings(ps, version))
    modifies c
    ensures m <= |ps| && packets == ReceivedAll(ps[..m], version)
    ensures WholeLen(FrameLen, c.buffer) == 0 && c.buffer + later == Concat(Encodings(ps[m..], version))
  {
    FrameLenIsPrefixCode();
    EncodingsAreFrames(ps, version);
    m := CutAtBounds(FrameLen, c.buffer + chunk, later, Encodings(ps, version));
    NothingWhole(FrameLen, c.buffer + chunk);
    EncodingsPart(ps, version, m);
    EncodingsAreFrames(ps[..m], version);
    c.Receive(chunk);
    var data := c.Unpack();
    var out := OnPacket(data, version, false);
    HandlingOfFrames(Encodings(ps[..m], version), version, false, out);
    EndToEnd(ps[..m], version, false, out);
    packets := out.packets;
  }

  lemma NextChunk(chunks: seq<seq<byte>>, i: nat, buffer: seq<byte>)
    requires i < |chunks|
    ensures buffer + Concat(chunks[i..]) == buffer + chunks[i] + Concat(chunks[i + 1..])
  {
    NextOf(chunks, i, Concat(chunks[i..]));
  }

  lemma ServesMore(ps: seq<Packet>, rest: seq<Packet>, version: u8, packets: seq<Packet>, m: nat)
    requires m <= |rest| && AllSendable(rest, version)
    requires packets + ReceivedAll(rest, version) == ReceivedAll(ps, version)
    ensures packets + ReceivedAll(rest[..m], version) + ReceivedAll(rest[m..], version) == ReceivedAll(ps, version)
    ensures AllSendable(rest[m..], version)
  {
    EncodingsPart(rest, version, m);
    var a, b := ReceivedAll(rest[..m], version), ReceivedAll(rest[m..], version);
    assert packets + (a + b) == packets + a + b;
  }

  lemma ServesAll(rest: seq<Packet>, version: u8, buffer: seq<byte>)
    requires AllSendable(rest, version) && buffer == Concat(Encodings(rest, version)) && WholeLen(FrameLen, buffer) == 0
    ensures rest == [] && buffer == []
  {
    FrameLenIsPrefixCode();
    EncodingsAreFrames(rest, version);
    NothingLeft(FrameLen, Encodings(rest, version));
  }

  /**
   An authenticated connection over which sendable packets arrive, in whatever chunks. In the end every packet
   has been delivered, in order, and nothing is left over.
   */
  method Serve(c: Conn, chunks: seq<seq<byte>>, version: u8, ghost ps: seq<Packet>) returns (packets: seq<Packet>)
    requires AllSendable(ps, version) && c.buffer == [] && Concat(chunks) == Concat(Encodings(ps, version))
    modifies c
    ensures packets == ReceivedAll(ps, version) && c.buffer == []
  {
    ghost var rest := ps;
    packets := [];
    var i := 0;
    assert chunks[0..] == chunks;
    while i < |chunks|
      invariant i <= |chunks| && AllSendable(rest, version)
      invariant c.buffer + Concat(chunks[i..]) == Concat(Encodings(rest, version)) && WholeLen(FrameLen, c.buffer) == 0
      invariant packets + ReceivedAll(rest, version) == ReceivedAll(ps, version)
    {
      ghost var later := Concat(chunks[i + 1..]);
      NextChunk(chunks, i, c.buffer);
      var more, m := ServeChunk(c, chunks[i], version, rest, later);
      ServesMore(ps, rest, version, packets, m);
      packets, rest, i := packets + more, rest[m..], i + 1;
    }
    assert c.buffer + Concat(chunks[i..]) == c.buffer;
    ServesAll(rest, version, c.buffer);
  }
}
