/** The fixed header, the length code, and whole packets. */
module Protocol {
  import opened Bytes
  import opened Codec
  import opened Packets

  // ---------- the header byte ----------

  function EncodeBool(b: bool): nat {
    if b then 1 else 0
  }

  /** The type in the high four bits, the flags below; a type above 15 wraps. */
  function HeaderByte(packetType: nat, f: Framer): byte {
    (16 * packetType + 8 * EncodeBool(f.dup) + 4 * EncodeBool(f.syncOnce) + 2 * EncodeBool(f.redDot)
     + EncodeBool(f.noPersist)) % 256
  }

  function FramerFromByte(v: byte): Framer {
    Framer(v / 16, 0, v % 2 > 0, v / 2 % 2 > 0, v / 4 % 2 > 0, v / 8 % 2 > 0)
  }

  lemma Halved(n: nat, half: nat, bit: bool)
    requires n == 2 * half + EncodeBool(bit)
    ensures n / 2 == half && (n % 2 > 0) == bit
  {
  }

  lemma Bit(n: nat)
    ensures EncodeBool(n % 2 > 0) == n - 2 * (n / 2)
  {
  }

  lemma Halves(v: nat)
    ensures v / 2 / 2 == v / 4 && v / 4 / 2 == v / 8 && v / 8 / 2 == v / 16
  {
  }

  lemma HeaderByteIs(packetType: nat, f: Framer)
    requires packetType < 16
    ensures HeaderByte(packetType, f)
         == 16 * packetType + 8 * EncodeBool(f.dup) + 4 * EncodeBool(f.syncOnce) + 2 * EncodeBool(f.redDot)
            + EncodeBool(f.noPersist)
  {
  }

  /** The flags survive, and the type when it fits its four bits. */
  lemma HeaderRoundTrip(f: Framer)
    ensures FramerFromByte(HeaderByte(f.packetType, f)) == f.(remainingLength := 0) <==> f.packetType < 16
  {
    if f.packetType < 16 {
      var v := HeaderByte(f.packetType, f);
      var v8 := 2 * f.packetType + EncodeBool(f.dup);
      var v4 := 2 * v8 + EncodeBool(f.syncOnce);
      var v2 := 2 * v4 + EncodeBool(f.redDot);
      HeaderByteIs(f.packetType, f);
      Halved(v, v2, f.noPersist);
      Halved(v2, v4, f.redDot);
      Halved(v4, v8, f.syncOnce);
      Halved(v8, f.packetType, f.dup);
      Halves(v);
    }
  }

  /** No two header bytes mean the same. */
  lemma HeaderByteRoundTrip(v: byte)
    ensures HeaderByte(v / 16, FramerFromByte(v)) == v
  {
    var f := FramerFromByte(v);
    HeaderByteIs(v / 16, f);
    Halves(v);
    Bit(v);
    Bit(v / 2);
    Bit(v / 4);
    Bit(v / 8);
  }

  /** The type stands in the high four bits, then the four flags from the one worth 8 down to the one worth 1. */
  lemma HeaderBits(packetType: nat, f: Framer, v: byte)
    requires packetType < 16 && v == HeaderByte(packetType, f)
    ensures v / 16 == packetType && (v / 8 % 2 == 1 <==> f.dup) && (v / 4 % 2 == 1 <==> f.syncOnce)
    ensures (v / 2 % 2 == 1 <==> f.redDot) && (v % 2 == 1 <==> f.noPersist)
  {
    HeaderRoundTrip(f.(packetType := packetType));
    HeaderByteIs(packetType, f);
    assert HeaderByte(packetType, f) == HeaderByte(packetType, f.(packetType := packetType));
  }

  // ---------- the length code ----------

  /** Base 128, least significant digit first, the top bit on all digits but the last; zero has no digits. */
  function VariableBytes(size: nat): (s: seq<byte>) {
    if size == 0 then []
    else if size < 0x80 then [size]
    else [0x80 + size % 0x80] + VariableBytes(size / 0x80)
  }

  lemma VariableStep(n: nat)
    requires n > 0
    ensures VariableBytes(n) == [if n / 0x80 > 0 then 0x80 + n % 0x80 else n % 0x80] + VariableBytes(n / 0x80)
    ensures |VariableBytes(n)| == 1 + |VariableBytes(n / 0x80)|
  {
  }

  lemma DigitAndRest(d: nat, rest: nat)
    requires d < 0x80 && rest > 0
    ensures VariableBytes(d + 0x80 * rest) == [0x80 + d] + VariableBytes(rest)
  {
    var n := d + 0x80 * rest;
    assert n / 0x80 == rest && n % 0x80 == d;
    VariableStep(n);
  }

  /** The lengths a decoder can read, digit by digit. */
  lemma VariableDigits(d0: nat, d1: nat, d2: nat, d3: nat)
    requires d0 < 0x80 && d1 < 0x80 && d2 < 0x80 && d3 < 0x80
    ensures VariableBytes(0) == [] && (d0 > 0 ==> VariableBytes(d0) == [d0])
    ensures d1 > 0 ==> VariableBytes(d0 + 0x80 * d1) == [0x80 + d0, d1]
    ensures d2 > 0 ==> VariableBytes(d0 + 0x80 * d1 + 0x4000 * d2) == [0x80 + d0, 0x80 + d1, d2]
    ensures d3 > 0 ==> VariableBytes(d0 + 0x80 * d1 + 0x4000 * d2 + 0x20_0000 * d3)
                       == [0x80 + d0, 0x80 + d1, 0x80 + d2, d3]
  {
    if d1 > 0 {
      DigitAndRest(d0, d1);
    }
    if d2 > 0 {
      DigitAndRest(d1, d2);
      DigitAndRest(d0, d1 + 0x80 * d2);
    }
    if d3 > 0 {
      DigitAndRest(d2, d3);
      DigitAndRest(d1, d2 + 0x80 * d3);
      DigitAndRest(d0, d1 + 0x80 * (d2 + 0x80 * d3));
    }
  }

  method EncodeVariable(n: u32) returns (ret: seq<byte>)
    ensures ret == VariableBytes(n)
  {
    ret := [];
    var size: nat := n;
    while size > 0
      invariant ret + VariableBytes(size) == VariableBytes(n)
    {
      VariableStep(size);
      var digit := size % 0x80;
      size := size / 0x80;
      if size > 0 {
        digit := 0x80 + digit;
      }
      assert ret + ([digit] + VariableBytes(size)) == ret + [digit] + VariableBytes(size);
      ret := ret + [digit];
    }
  }

  /** A length and its digits; a code broken off by the end of the input; four digits that all ask for more. */
  datatype Length = Whole(value: nat, digits: nat) | Broken | Endless(value: nat)

  function Shifted(n: nat, digits: nat): nat {
    if digits == 0 then n
    else if digits == 1 then 0x80 * n
    else if digits == 2 then 0x4000 * n
    else 0x20_0000 * n
  }

  /** A digit without its top bit. */
  function Low7(d: byte): nat {
    if d < 0x80 then d else d - 0x80
  }

  /** The length code at `p`, of which `digits` digits summing up to `sum` have been read. */
  function LengthAt(b: seq<byte>, p: nat, digits: nat, sum: nat): (r: Length)
    decreases 4 - digits
  {
    if digits >= 4 then Endless(sum)
    else if p + digits >= |b| then Broken
    else
      var n := sum + Shifted(Low7(b[p + digits]), digits);
      if b[p + digits] < 0x80 then Whole(n, digits + 1) else LengthAt(b, p, digits + 1, n)
  }

  lemma {:induction false} LengthBounds(b: seq<byte>, p: nat, digits: nat, sum: nat)
    requires digits <= 4 && p + digits <= |b| && sum < Shifted(1, digits) + if digits == 4 then 0xFE0_0000 else 0
    ensures var r := LengthAt(b, p, digits, sum);
            && (r.Whole? ==> digits < r.digits <= 4 && p + r.digits <= |b| && r.value < 0x1000_0000)
            && (r.Endless? ==> p + 4 <= |b| && r.value < 0x1000_0000)
    decreases 4 - digits
  {
    if digits < 4 && p + digits < |b| && b[p + digits] >= 0x80 {
      LengthBounds(b, p, digits + 1, sum + Shifted(Low7(b[p + digits]), digits));
    }
  }

  method DecodeLength(data: seq<byte>) returns (r: Parsed<u32>)
    ensures match LengthAt(data, 0, 0, 0)
            case Whole(n, digits) => r == Got(n, digits)
            case Endless(n) => r == Got(n, 5)
            case Broken => r == Crash
  {
    LengthBounds(data, 0, 0, 0);
    var length: nat := 0;
    var multiplier, offset: nat := 0, 0;
    while multiplier < 27
      invariant multiplier == 7 * offset && offset <= 4
      invariant LengthAt(data, 0, 0, 0) == LengthAt(data, 0, offset, length)
      decreases 4 - offset
    {
      if offset >= |data| {
        return Crash;
      }
      var digit := data[offset];
      length := length + Shifted(Low7(digit), multiplier / 7);
      if digit < 0x80 {
        return Got(length, offset + 1);
      }
      multiplier := multiplier + 7;
      offset := offset + 1;
    }
    r := Got(length, offset + 1);
  }

  lemma NextDigit(b: seq<byte>, p: nat, digits: nat, sum: nat, d: nat, code: seq<byte>)
    requires digits < 4 && d < 0x80 && Stands(b, p + digits, [0x80 + d] + code)
    ensures LengthAt(b, p, digits, sum) == LengthAt(b, p, digits + 1, sum + Shifted(d, digits))
    ensures digits == 3 ==> LengthAt(b, p, digits, sum).Endless?
    ensures Stands(b, p + digits + 1, code)
  {
    StandsParts(b, p + digits, [0x80 + d], code);
    assert b[p + digits..p + digits + 1][0] == b[p + digits];
  }

  lemma LastDigit(b: seq<byte>, p: nat, digits: nat, sum: nat, d: nat)
    requires digits < 4 && d < 0x80 && Stands(b, p + digits, [d])
    ensures LengthAt(b, p, digits, sum) == Whole(sum + Shifted(d, digits), digits + 1)
    ensures Shifted(d, digits) < 0x1000_0000
  {
    assert b[p + digits..p + digits + 1][0] == b[p + digits];
  }

  /** `n` behind `digits` digits is its low digit and the rest behind one digit more. */
  lemma Carry(r: Length, n: nat, d: nat, rest: nat, digits: nat, sum: nat, last: nat)
    requires d < 0x80 <= n == 0x80 * rest + d && digits < 3
    requires r == Whole(sum + Shifted(d, digits) + Shifted(rest, digits + 1), last)
        <==> Shifted(rest, digits + 1) < 0x1000_0000
    ensures r == Whole(sum + Shifted(n, digits), last) <==> Shifted(n, digits) < 0x1000_0000
  {
  }

  /** The decoder is given the digits and what follows them. */
  lemma {:induction false} LengthOfVariable(n: nat, b: seq<byte>, p: nat, digits: nat, sum: nat, size: nat)
    requires n >= 1 && digits < 4 && Stands(b, p + digits, VariableBytes(n)) && size == |VariableBytes(n)|
    ensures LengthAt(b, p, digits, sum) == Whole(sum + Shifted(n, digits), digits + size)
       <==> Shifted(n, digits) < 0x1000_0000
    decreases 4 - digits
  {
    if n < 0x80 {
      LastDigit(b, p, digits, sum, n);
    } else {
      var d, rest := n % 0x80, n / 0x80;
      VariableStep(n);
      NextDigit(b, p, digits, sum, d, VariableBytes(rest));
      if digits < 3 {
        LengthOfVariable(rest, b, p, digits + 1, sum + Shifted(d, digits), size - 1);
        Carry(LengthAt(b, p, digits, sum), n, d, rest, digits, sum, digits + size);
      }
    }
  }

  /** The length code is inverted exactly for the lengths from 1 to 2^28 - 1. */
  lemma LengthRoundTrip(n: nat, tail: seq<byte>)
    ensures LengthAt(VariableBytes(n) + tail, 0, 0, 0) == Whole(n, |VariableBytes(n)|) <==> 1 <= n < 0x1000_0000
  {
    var b := VariableBytes(n) + tail;
    if n == 0 {
      LengthBounds(b, 0, 0, 0);
    } else {
      LengthOfVariable(n, b, 0, 0, 0, |VariableBytes(n)|);
    }
  }

  // ---------- whole packets ----------

  /** What a decoding call returns: a packet and its size, nothing yet, an error, or a crash. */
  datatype Decoded = Frame(packet: Packet, size: nat) | Incomplete | Invalid | Panic

  function HeaderOf(p: Packet): byte {
    if p.Ping? || p.Pong? then 16 * PacketType(p) else HeaderByte(PacketType(p), p.framer)
  }

  function Body(p: Packet, version: u8): seq<byte> {
    if p.Ping? || p.Pong? then [] else Put(BodyFields(p, version))
  }

  /** A length as a 32-bit number. */
  function Truncated(n: nat): (m: u32)
    ensures n < TWO32 ==> m == n
  {
    n % 0x1_0000_0000
  }

  function Encoded(p: Packet, version: u8): seq<byte> {
    [HeaderOf(p)] + VariableBytes(Truncated(|Body(p, version)|)) + Body(p, version)
  }

  method EncodePacket(p: Packet, version: u8) returns (data: seq<byte>)
    ensures data == Encoded(p, version)
  {
    var body: seq<byte>;
    match p {
      case Connect(_, _, _, _, _, _, _, _) => body := EncodeConnect(p, version);
      case Connack(_, _, _, _, _) => body := EncodeConnack(p, version);
      case Send(_, _, _, _, _, _, _, _) => body := EncodeSend(p, version);
      case Sendack(_, _, _, _, _, _) => body := EncodeSendack(p, version);
      case Recv(_, _, _, _, _, _, _, _, _, _, _) => body := EncodeRecv(p, version);
      case Recvack(_, _, _) => body := EncodeRecvack(p, version);
      case Disconnect(_, _, _) => body := EncodeDisconnect(p, version);
      case Ping => return [0x70];
      case Pong => return [0x80];
    }
    var length := EncodeVariable(Truncated(|body|));
    data := [HeaderByte(PacketType(p), p.framer)] + length + body;
  }

  function BodyResult(r: Decoded): Result<Packet> {
    match r
    case Frame(p, _) => Ok(p)
    case Invalid => Failed
    case _ => Crashed
  }

  /** `r` is what decoding a body of `n` bytes that starts at `start` gives. */
  ghost predicate IsDecodingAt(data: seq<byte>, version: u8, start: nat, n: nat, r: Decoded) {
    var framer := FramerFromByte(FirstByte(data));
    if n > 0x10_0000 then r == Invalid
    else if |data| < start + n then r == Incomplete
    else if !Bodied(framer.packetType) then r == Invalid
    else
      && r != Incomplete && (r.Frame? ==> r.size == start + n)
      && IsBody(framer.(remainingLength := n), data[start..start + n], version, BodyResult(r))
  }

  /** The length code behind the header byte. */
  function LengthCode(data: seq<byte>): Length {
    if data == [] then Broken else LengthAt(data[1..], 0, 0, 0)
  }

  ghost predicate Heads(data: seq<byte>, l: Length) {
    l == LengthCode(data)
  }

  ghost predicate DecodesTo(data: seq<byte>, l: Length, version: u8, r: Decoded) {
    if data == [] then r == Panic
    else if data[0] / 16 == PING then r == Frame(Ping, 1)
    else if data[0] / 16 == PONG then r == Frame(Pong, 1)
    else
      match l
      case Broken => r == Panic
      case Whole(n, digits) => IsDecodingAt(data, version, 1 + digits, n, r)
      case Endless(n) => IsDecodingAt(data, version, 6, n, r)
  }

  /** `r` is what decoding the packet at the head of `data` gives. */
  ghost predicate IsDecoding(data: seq<byte>, version: u8, r: Decoded) {
    forall l :: Heads(data, l) ==> DecodesTo(data, l, version, r)
  }

  lemma DecodingIs(data: seq<byte>, version: u8, r: Decoded)
    ensures IsDecoding(data, version, r) <==> DecodesTo(data, LengthCode(data), version, r)
  {
    assert Heads(data, LengthCode(data));
  }

  method DecodeBody(framer: Framer, body: seq<byte>, version: u8) returns (r: Result<Packet>)
    requires Bodied(framer.packetType)
    ensures IsBody(framer, body, version, r)
  {
    if framer.packetType == CONNECT {
      r := DecodeConnect(framer, body, version);
    } else if framer.packetType == CONNACK {
      r := DecodeConnack(framer, body, version);
    } else if framer.packetType == SEND {
      r := DecodeSend(framer, body, version);
    } else if framer.packetType == SENDACK {
      r := DecodeSendack(framer, body, version);
    } else if framer.packetType == RECV {
      r := DecodeRecv(framer, body, version);
    } else if framer.packetType == RECVACK {
      r := DecodeRecvack(framer, body, version);
    } else {
      r := DecodeDisconnect(framer, body, version);
    }
  }

  method DecodePacket(data: seq<byte>, version: u8) returns (r: Decoded)
    ensures IsDecoding(data, version, r)
  {
    if |data| == 0 {
      return Panic;
    }
    var framer := FramerFromByte(data[0]);
    if framer.packetType == PING {
      return Frame(Ping, 1);
    }
    if framer.packetType == PONG {
      return Frame(Pong, 1);
    }
    var length := DecodeLength(data[1..]);
    if !length.Got? {
      return Panic;
    }
    if length.value > 0x10_0000 {
      return Invalid;
    }
    var start := 1 + length.next;
    var end := start + length.value;
    if |data| < end {
      return Incomplete;
    }
    if !Bodied(framer.packetType) {
      return Invalid;
    }
    framer := framer.(remainingLength := length.value);
    var p := DecodeBody(framer, data[start..end], version);
    r := match p case Ok(v) => Frame(v, end) case Failed => Invalid case Crashed => Panic;
  }

  // ---------- packets round trip ----------

  function OwnFramer(p: Packet, size: u32): Framer
    requires !p.Ping? && !p.Pong?
  {
    p.framer.(packetType := PacketType(p), remainingLength := size)
  }

  /** The packet a peer decodes: the fields its version carries, the header of its own bytes. */
  function Received(p: Packet, version: u8): Packet {
    if p.Ping? || p.Pong? then p
    else Carried(p, version, OwnFramer(p, Truncated(|Body(p, version)|)))
  }

  /** What a caller checks before encoding: short strings and at most one mebibyte of body. */
  predicate Sendable(p: Packet, version: u8) {
    Fits(p, version) && |Body(p, version)| <= 0x10_0000
  }

  lemma BodyIsNotEmpty(p: Packet, version: u8)
    requires !p.Ping? && !p.Pong?
    ensures |Body(p, version)| > 0
  {
  }

  lemma HeaderSays(p: Packet)
    requires !p.Ping? && !p.Pong?
    ensures HeaderOf(p) / 16 == PacketType(p)
    ensures FramerFromByte(HeaderOf(p)) == p.framer.(packetType := PacketType(p), remainingLength := 0)
  {
    HeaderRoundTrip(p.framer.(packetType := PacketType(p)));
  }

  lemma FrameParts(h: byte, code: seq<byte>, body: seq<byte>, tail: seq<byte>)
    ensures var data := [h] + code + body + tail;
            && data[0] == h && data[1..] == code + (body + tail)
            && data[1 + |code|..1 + |code| + |body|] == body
  {
  }

  lemma DecodingAtIs(data: seq<byte>, version: u8, start: nat, body: seq<byte>, f: Framer, r: Decoded)
    requires start + |body| <= |data| && data[start..start + |body|] == body && |body| <= 0x10_0000
    requires f == FramerFromByte(FirstByte(data)).(remainingLength := |body|) && Bodied(f.packetType)
    ensures IsDecodingAt(data, version, start, |body|, r)
       <==> r != Incomplete && (r.Frame? ==> r.size == start + |body|) && IsBody(f, body, version, BodyResult(r))
  {
  }

  lemma LengthCodeIs(h: byte, body: seq<byte>, tail: seq<byte>, data: seq<byte>)
    requires 0 < |body| < 0x1000_0000 && data == [h] + VariableBytes(|body|) + body + tail
    ensures LengthCode(data) == Whole(|body|, |VariableBytes(|body|)|)
  {
    LengthRoundTrip(|body|, body + tail);
    FrameParts(h, VariableBytes(|body|), body, tail);
  }

  /** Decoding what was put behind a header and the length code. */
  lemma DecodesPutBody(h: byte, body: seq<byte>, version: u8, tail: seq<byte>, data: seq<byte>, f: Framer, size: nat,
                       r: Decoded)
    requires 0 < |body| < 0x1000_0000 && h / 16 != PING && h / 16 != PONG
    requires data == [h] + VariableBytes(|body|) + body + tail && size == 1 + |VariableBytes(|body|)| + |body|
    requires f == FramerFromByte(h).(remainingLength := |body|) && Bodied(f.packetType)
    ensures IsDecoding(data, version, r)
       <==> if |body| > 0x10_0000 then r == Invalid
            else r != Incomplete && (r.Frame? ==> r.size == size) && IsBody(f, body, version, BodyResult(r))
  {
    DecodingIs(data, version, r);
    LengthCodeIs(h, body, tail, data);
    FrameParts(h, VariableBytes(|body|), body, tail);
    if |body| <= 0x10_0000 {
      DecodingAtIs(data, version, size - |body|, body, f, r);
    }
  }

  lemma DecodesOwnBody(p: Packet, version: u8, e: seq<byte>, body: seq<byte>, tail: seq<byte>, f: Framer, r: Decoded)
    requires !p.Ping? && !p.Pong? && e == Encoded(p, version) && body == Body(p, version) && |body| < 0x1000_0000
    requires f == OwnFramer(p, |body|)
    ensures IsDecoding(e + tail, version, r)
       <==> if |body| > 0x10_0000 then r == Invalid
            else r != Incomplete && (r.Frame? ==> r.size == |e|) && IsBody(f, body, version, BodyResult(r))
  {
    HeaderSays(p);
    BodyIsNotEmpty(p, version);
    DecodesPutBody(HeaderOf(p), body, version, tail, e + tail, f, |e|, r);
  }

  lemma SingleRoundTrip(p: Packet, version: u8, tail: seq<byte>, r: Decoded)
    requires p.Ping? || p.Pong?
    ensures IsDecoding(Encoded(p, version) + tail, version, r) <==> r == Frame(p, |Encoded(p, version)|)
  {
    var e := Encoded(p, version);
    DecodingIs(e + tail, version, r);
    assert e == [HeaderOf(p)] && (e + tail)[0] == e[0];
  }

  lemma BodiedRoundTrip(p: Packet, version: u8, e: seq<byte>, body: seq<byte>, tail: seq<byte>, f: Framer, r: Decoded)
    requires !p.Ping? && !p.Pong? && e == Encoded(p, version) && body == Body(p, version) && |body| <= 0x10_0000
    requires Fits(p, version) && f == OwnFramer(p, |body|)
    ensures IsDecoding(e + tail, version, r) <==> r == Frame(Carried(p, version, f), |e|)
  {
    BodyRoundTrip(p, version, f, BodyResult(r));
    DecodesOwnBody(p, version, e, body, tail, f, r);
  }

  lemma SendableRoundTrip(p: Packet, version: u8, e: seq<byte>, body: seq<byte>, tail: seq<byte>, r: Decoded)
    requires !p.Ping? && !p.Pong? && e == Encoded(p, version) && body == Body(p, version)
    requires Fits(p, version) && |body| <= 0x10_0000
    ensures IsDecoding(e + tail, version, r) <==> r == Frame(Received(p, version), |e|)
  {
    BodiedRoundTrip(p, version, e, body, tail, OwnFramer(p, |body|), r);
  }

  /**
   A sendable packet is decoded to what its version carries of it, in exactly its own length, whatever
   follows it, and to nothing else.
   */
  lemma PacketRoundTrip(p: Packet, version: u8, tail: seq<byte>, r: Decoded)
    requires Sendable(p, version)
    ensures IsDecoding(Encoded(p, version) + tail, version, r)
       <==> r == Frame(Received(p, version), |Encoded(p, version)|)
  {
    if p.Ping? || p.Pong? {
      SingleRoundTrip(p, version, tail, r);
    } else {
      SendableRoundTrip(p, version, Encoded(p, version), Body(p, version), tail, r);
    }
  }

  /** A decoded packet is at most six bytes longer than its body. */
  lemma DecodedSize(data: seq<byte>, version: u8, p: Packet, size: nat)
    requires IsDecoding(data, version, Frame(p, size))
    ensures size <= 6 + 0x10_0000
  {
    DecodingIs(data, version, Frame(p, size));
    if data != [] {
      LengthBounds(data[1..], 0, 0, 0);
    }
  }

  /** No other packet round trips. */
  lemma UnsendableIsLost(p: Packet, version: u8, tail: seq<byte>)
    requires !Sendable(p, version)
    ensures !IsDecoding(Encoded(p, version) + tail, version, Frame(Received(p, version), |Encoded(p, version)|))
  {
    var e, n := Encoded(p, version), |Body(p, version)|;
    var r := Frame(Received(p, version), |e|);
    if n >= 0x1000_0000 {
      if IsDecoding(e + tail, version, r) {
        DecodedSize(e + tail, version, r.packet, |e|);
      }
    } else {
      var f := OwnFramer(p, n);
      DecodesOwnBody(p, version, e, Body(p, version), tail, f, r);
      if n <= 0x10_0000 {
        TooLongBody(p, version, f);
      }
    }
  }
}
