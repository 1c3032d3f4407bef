/** The bodies of the wire protocol's packets, which differ from version to version. */
module Packets {
  import opened Bytes
  import opened Codec

  /** The fixed header: the packet type and four flags, with the length of the body. */
  datatype Framer = Framer(
    packetType: nat, remainingLength: u32, noPersist: bool, redDot: bool, syncOnce: bool, dup: bool)

  const CONNECT := 1
  const CONNACK := 2
  const SEND := 3
  const SENDACK := 4
  const RECV := 5
  const RECVACK := 6
  const PING := 7
  const PONG := 8
  const DISCONNECT := 9

  type text = seq<byte>

  datatype Packet =
    | Connect(framer: Framer, protocol: u8, clientKey: text, deviceID: text, deviceFlag: u8, clientTimestamp: i64,
              uid: text, token: text)
    | Connack(framer: Framer, serverKey: text, salt: text, timeDiff: i64, reasonCode: u8)
    | Send(framer: Framer, receipt: bool, msgKey: text, clientSeq: u64, clientMsgNo: text, channelID: text,
           channelType: u8, payload: seq<byte>)
    | Sendack(framer: Framer, clientSeq: u64, messageID: i64, messageSeq: u32, clientMsgNo: text, reasonCode: u8)
    | Recv(framer: Framer, receipt: bool, msgKey: text, messageID: i64, messageSeq: u32, clientMsgNo: text,
           timestamp: i32, channelID: text, channelType: u8, fromUID: text, payload: seq<byte>)
    | Recvack(framer: Framer, messageID: i64, messageSeq: u32)
    | Disconnect(framer: Framer, reasonCode: u8, reason: text)
    | Ping
    | Pong

  function PacketType(p: Packet): nat {
    match p
    case Connect(_, _, _, _, _, _, _, _) => CONNECT
    case Connack(_, _, _, _, _) => CONNACK
    case Send(_, _, _, _, _, _, _, _) => SEND
    case Sendack(_, _, _, _, _, _) => SENDACK
    case Recv(_, _, _, _, _, _, _, _, _, _, _) => RECV
    case Recvack(_, _, _) => RECVACK
    case Disconnect(_, _, _) => DISCONNECT
    case Ping => PING
    case Pong => PONG
  }

  // ---------- what a body is made of ----------

  /** A string some versions lack. */
  function StrIf(present: bool, s: text, rest: Fields): (fs: Fields)
    ensures Fitting(fs) <==> (present ==> |s| < 0x8000) && Fitting(rest)
    ensures Closed(fs) <==> Closed(rest)
    ensures KindsOf(fs) == KindIf(present, KString, KindsOf(rest))
  {
    if present then Str(s, rest) else rest
  }

  /** A byte some versions lack. */
  function U8If(present: bool, n: u8, rest: Fields): (fs: Fields)
    ensures Fitting(fs) <==> Fitting(rest)
    ensures Closed(fs) <==> Closed(rest)
    ensures KindsOf(fs) == KindIf(present, KU8, KindsOf(rest))
  {
    if present then U8(n, rest) else rest
  }

  /** The setting byte of a message; the receipt flag is its highest bit. */
  function Setting(receipt: bool): u8 {
    if receipt then 0x80 else 0
  }

  function KindIf(present: bool, k: Kind, rest: Kinds): Kinds {
    if present then KCons(k, rest) else rest
  }

  function BodyFields(p: Packet, version: u8): Fields
    requires !p.Ping? && !p.Pong?
  {
    match p
    case Connect(_, protocol, clientKey, deviceID, deviceFlag, clientTimestamp, uid, token) =>
      U8(protocol, StrIf(protocol > 2, clientKey, U8(deviceFlag, Str(deviceID, I64(clientTimestamp,
      Str(uid, Str(token, FNil)))))))
    case Connack(_, serverKey, salt, timeDiff, reasonCode) =>
      StrIf(version > 2, serverKey, StrIf(version > 2, salt, I64(timeDiff, U8(reasonCode, FNil))))
    case Send(_, receipt, msgKey, clientSeq, clientMsgNo, channelID, channelType, payload) =>
      U8If(version > 3, Setting(receipt), StrIf(version > 2, msgKey, U32(clientSeq % 0x1_0000_0000,
      StrIf(version > 1, clientMsgNo, Str(channelID, U8(channelType, All(payload)))))))
    case Sendack(_, clientSeq, messageID, messageSeq, _, reasonCode) =>
      U32(clientSeq % 0x1_0000_0000, I64(messageID, U32(messageSeq, U8(reasonCode, FNil))))
    case Recv(_, receipt, msgKey, messageID, messageSeq, clientMsgNo, timestamp, channelID, channelType, fromUID,
              payload) =>
      U8If(version > 3, Setting(receipt), StrIf(version > 2, msgKey, I64(messageID, U32(messageSeq,
      StrIf(version > 1, clientMsgNo, I32(timestamp, Str(channelID, U8(channelType, Str(fromUID, All(payload))))))))))
    case Recvack(_, messageID, messageSeq) => I64(messageID, U32(messageSeq, FNil))
    case Disconnect(_, reasonCode, reason) => U8(reasonCode, Str(reason, FNil))
  }

  /** The kinds a decoder reads; a CONNECT body says itself, in its first byte, which fields it has. */
  function Layout(packetType: nat, version: u8, protocol: u8): Kinds {
    if packetType == CONNECT then
      KCons(KU8, KindIf(protocol > 2, KString,
        KCons(KU8, KCons(KString, KCons(KI64, KCons(KString, KCons(KString, KNil)))))))
    else if packetType == CONNACK then
      KindIf(version > 2, KString, KindIf(version > 2, KString, KCons(KI64, KCons(KU8, KNil))))
    else if packetType == SEND then
      KindIf(version > 3, KU8, KindIf(version > 2, KString, KCons(KU32,
      KindIf(version > 1, KString, KCons(KString, KCons(KU8, KCons(KAll, KNil)))))))
    else if packetType == SENDACK then KCons(KU32, KCons(KI64, KCons(KU32, KCons(KU8, KNil))))
    else if packetType == RECV then
      KindIf(version > 3, KU8, KindIf(version > 2, KString, RecvLayout(version)))
    else if packetType == RECVACK then KCons(KI64, KCons(KU32, KNil))
    else KCons(KU8, KCons(KString, KNil))
  }

  /** A RECV body from the message ID on. */
  function RecvLayout(version: u8): Kinds {
    KCons(KI64, KCons(KU32, KindIf(version > 1, KString, RecvAddress())))
  }

  function RecvAddress(): Kinds {
    KCons(KI32, KCons(KString, KCons(KU8, KCons(KString, KCons(KAll, KNil)))))
  }

  function FirstByte(b: seq<byte>): u8 {
    if |b| > 0 then b[0] else 0
  }

  /** Packets with a body. */
  predicate Bodied(packetType: nat) {
    CONNECT <= packetType <= DISCONNECT && packetType != PING && packetType != PONG
  }

  /** `p` with what its version does not carry left out, under the given header. */
  function Carried(p: Packet, version: u8, framer: Framer): Packet {
    match p
    case Connect(_, protocol, clientKey, deviceID, deviceFlag, clientTimestamp, uid, token) =>
      Connect(framer, protocol, OnlyIf(protocol > 2, clientKey), deviceID, deviceFlag, clientTimestamp, uid, token)
    case Connack(_, serverKey, salt, timeDiff, reasonCode) =>
      Connack(framer, OnlyIf(version > 2, serverKey), OnlyIf(version > 2, salt), timeDiff, reasonCode)
    case Send(_, receipt, msgKey, clientSeq, clientMsgNo, channelID, channelType, payload) =>
      Send(framer, version > 3 && receipt, OnlyIf(version > 2, msgKey), clientSeq % 0x1_0000_0000,
           OnlyIf(version > 1, clientMsgNo), channelID, channelType, payload)
    case Sendack(_, clientSeq, messageID, messageSeq, _, reasonCode) =>
      Sendack(framer, clientSeq % 0x1_0000_0000, messageID, messageSeq, [], reasonCode)
    case Recv(_, receipt, msgKey, messageID, messageSeq, clientMsgNo, timestamp, channelID, channelType, fromUID,
              payload) =>
      Recv(framer, version > 3 && receipt, OnlyIf(version > 2, msgKey), messageID, messageSeq,
           OnlyIf(version > 1, clientMsgNo), timestamp, channelID, channelType, fromUID, payload)
    case Recvack(_, messageID, messageSeq) => Recvack(framer, messageID, messageSeq)
    case Disconnect(_, reasonCode, reason) => Disconnect(framer, reasonCode, reason)
    case Ping => Ping
    case Pong => Pong
  }

  function OnlyIf(present: bool, s: text): text {
    if present then s else []
  }

  /** Only the highest bit of the setting byte is kept. */
  function Settled(packetType: nat, version: u8, fs: Fields): Fields {
    if version > 3 && (packetType == SEND || packetType == RECV) && fs.FCons? && fs.head.FU8? then
      FCons(FU8(Setting(fs.head.u >= 0x80)), fs.tail)
    else
      fs
  }

  ghost predicate Reads(framer: Framer, b: seq<byte>, version: u8, got: Result<Fields>) {
    got == Get(Layout(framer.packetType, version, FirstByte(b)), b, 0)
  }

  /** `r` is made of the fields that were read. */
  ghost predicate Means(framer: Framer, version: u8, got: Result<Fields>, r: Result<Packet>) {
    match got
    case Ok(fs) =>
      && r.Ok? && PacketType(r.value) == framer.packetType && Bodied(framer.packetType)
      && r.value == Carried(r.value, version, framer)
      && BodyFields(r.value, version) == Settled(framer.packetType, version, fs)
    case Failed => r == Failed
    case Crashed => r == Crashed
  }

  /** `r` is what decoding the body `b` under this header gives. */
  ghost predicate IsBody(framer: Framer, b: seq<byte>, version: u8, r: Result<Packet>) {
    forall got :: Reads(framer, b, version, got) ==> Means(framer, version, got, r)
  }

  lemma BodyIs(framer: Framer, b: seq<byte>, version: u8, r: Result<Packet>)
    ensures IsBody(framer, b, version, r)
       <==> Means(framer, version, Get(Layout(framer.packetType, version, FirstByte(b)), b, 0), r)
  {
    assert Reads(framer, b, version, Get(Layout(framer.packetType, version, FirstByte(b)), b, 0));
  }

  // ---------- bodies as bytes ----------

  lemma PutStrIf(done: seq<byte>, present: bool, s: text, rest: Fields) returns (more: seq<byte>)
    ensures more == done + OnlyIf(present, Sized(s)) && done + Put(StrIf(present, s, rest)) == more + Put(rest)
  {
    more := done + OnlyIf(present, Sized(s));
    if present {
      more := PutStr(done, s, rest);
    }
  }

  lemma PutU8If(done: seq<byte>, present: bool, n: u8, rest: Fields) returns (more: seq<byte>)
    ensures more == done + OnlyIf(present, [n]) && done + Put(U8If(present, n, rest)) == more + Put(rest)
  {
    more := done + OnlyIf(present, [n]);
    if present {
      more := PutU8(done, n, rest);
    }
  }

  lemma ConnectBytes(p: Packet, version: u8)
    requires p.Connect?
    ensures Put(BodyFields(p, version)) == [p.protocol] + OnlyIf(p.protocol > 2, Sized(p.clientKey)) + [p.deviceFlag]
            + Sized(p.deviceID) + BigEndian(Unsigned64(p.clientTimestamp), 8) + Sized(p.uid) + Sized(p.token)
  {
    var f6 := Str(p.token, FNil);
    var f5 := Str(p.uid, f6);
    var f4 := I64(p.clientTimestamp, f5);
    var f3 := Str(p.deviceID, f4);
    var f2 := U8(p.deviceFlag, f3);
    var f1 := StrIf(p.protocol > 2, p.clientKey, f2);
    var b := PutU8([], p.protocol, f1);
    b := PutStrIf(b, p.protocol > 2, p.clientKey, f2);
    b := PutU8(b, p.deviceFlag, f3);
    b := PutStr(b, p.deviceID, f4);
    b := PutI64(b, p.clientTimestamp, f5);
    b := PutStr(b, p.uid, f6);
    b := PutStr(b, p.token, FNil);
  }

  lemma ConnackBytes(p: Packet, version: u8)
    requires p.Connack?
    ensures Put(BodyFields(p, version)) == OnlyIf(version > 2, Sized(p.serverKey))
            + OnlyIf(version > 2, Sized(p.salt)) + BigEndian(Unsigned64(p.timeDiff), 8) + [p.reasonCode]
  {
    var f3 := U8(p.reasonCode, FNil);
    var f2 := I64(p.timeDiff, f3);
    var f1 := StrIf(version > 2, p.salt, f2);
    var b := PutStrIf([], version > 2, p.serverKey, f1);
    b := PutStrIf(b, version > 2, p.salt, f2);
    b := PutI64(b, p.timeDiff, f3);
    b := PutU8(b, p.reasonCode, FNil);
  }

  lemma SendackBytes(p: Packet, version: u8)
    requires p.Sendack?
    ensures Put(BodyFields(p, version)) == BigEndian(p.clientSeq % 0x1_0000_0000, 4)
            + BigEndian(Unsigned64(p.messageID), 8) + BigEndian(p.messageSeq, 4) + [p.reasonCode]
  {
    var f3 := U8(p.reasonCode, FNil);
    var f2 := U32(p.messageSeq, f3);
    var f1 := I64(p.messageID, f2);
    var b := PutU32([], p.clientSeq % 0x1_0000_0000, f1);
    b := PutI64(b, p.messageID, f2);
    b := PutU32(b, p.messageSeq, f3);
    b := PutU8(b, p.reasonCode, FNil);
  }

  lemma RecvackBytes(p: Packet, version: u8)
    requires p.Recvack?
    ensures Put(BodyFields(p, version)) == BigEndian(Unsigned64(p.messageID), 8) + BigEndian(p.messageSeq, 4)
  {
    var f1 := U32(p.messageSeq, FNil);
    var b := PutI64([], p.messageID, f1);
    b := PutU32(b, p.messageSeq, FNil);
  }

  lemma DisconnectBytes(p: Packet, version: u8)
    requires p.Disconnect?
    ensures Put(BodyFields(p, version)) == [p.reasonCode] + Sized(p.reason)
  {
    var f1 := Str(p.reason, FNil);
    var b := PutU8([], p.reasonCode, f1);
    b := PutStr(b, p.reason, FNil);
  }

  lemma SettingAndKey(version: u8, setting: u8, msgKey: text, rest: Fields) returns (b: seq<byte>)
    ensures b == OnlyIf(version > 3, [setting]) + OnlyIf(version > 2, Sized(msgKey))
    ensures Put(U8If(version > 3, setting, StrIf(version > 2, msgKey, rest))) == b + Put(rest)
  {
    var fs := StrIf(version > 2, msgKey, rest);
    b := PutU8If([], version > 3, setting, fs);
    b := PutStrIf(b, version > 2, msgKey, rest);
  }

  lemma SendRest(done: seq<byte>, clientSeq: u32, named: bool, clientMsgNo: text, channelID: text, channelType: u8,
                 payload: seq<byte>)
    returns (fs: Fields)
    ensures fs == U32(clientSeq, StrIf(named, clientMsgNo, Str(channelID, U8(channelType, All(payload)))))
    ensures done + Put(fs) == done + BigEndian(clientSeq, 4) + OnlyIf(named, Sized(clientMsgNo)) + Sized(channelID)
            + [channelType] + payload
  {
    var f4 := All(payload);
    var f3 := U8(channelType, f4);
    var f2 := Str(channelID, f3);
    var f1 := StrIf(named, clientMsgNo, f2);
    fs := U32(clientSeq, f1);
    var b := PutU32(done, clientSeq, f1);
    b := PutStrIf(b, named, clientMsgNo, f2);
    b := PutStr(b, channelID, f3);
    b := PutU8(b, channelType, f4);
  }

  lemma SendBytes(p: Packet, version: u8)
    requires p.Send?
    ensures Put(BodyFields(p, version)) == OnlyIf(version > 3, [if p.receipt then 0x80 else 0])
            + OnlyIf(version > 2, Sized(p.msgKey)) + BigEndian(p.clientSeq % 0x1_0000_0000, 4)
            + OnlyIf(version > 1, Sized(p.clientMsgNo)) + Sized(p.channelID) + [p.channelType] + p.payload
  {
    var rest := SendRest([], p.clientSeq % 0x1_0000_0000, version > 1, p.clientMsgNo, p.channelID, p.channelType,
                         p.payload);
    var b := SettingAndKey(version, Setting(p.receipt), p.msgKey, rest);
    rest := SendRest(b, p.clientSeq % 0x1_0000_0000, version > 1, p.clientMsgNo, p.channelID, p.channelType,
                     p.payload);
  }

  lemma RecvRest(done: seq<byte>, messageID: i64, messageSeq: u32, named: bool, clientMsgNo: text, timestamp: i32,
                 channelID: text, channelType: u8, fromUID: text, payload: seq<byte>)
    returns (fs: Fields)
    ensures fs == I64(messageID, U32(messageSeq, StrIf(named, clientMsgNo, I32(timestamp, Str(channelID,
            U8(channelType, Str(fromUID, All(payload))))))))
    ensures done + Put(fs) == done + BigEndian(Unsigned64(messageID), 8) + BigEndian(messageSeq, 4)
            + OnlyIf(named, Sized(clientMsgNo)) + BigEndian(Unsigned32(timestamp), 4) + Sized(channelID)
            + [channelType] + Sized(fromUID) + payload
  {
    var f7 := All(payload);
    var f6 := Str(fromUID, f7);
    var f5 := U8(channelType, f6);
    var f4 := Str(channelID, f5);
    var f3 := I32(timestamp, f4);
    var f2 := StrIf(named, clientMsgNo, f3);
    var f1 := U32(messageSeq, f2);
    fs := I64(messageID, f1);
    var b := PutI64(done, messageID, f1);
    b := PutU32(b, messageSeq, f2);
    b := PutStrIf(b, named, clientMsgNo, f3);
    b := PutI32(b, timestamp, f4);
    b := PutStr(b, channelID, f5);
    b := PutU8(b, channelType, f6);
    b := PutStr(b, fromUID, f7);
  }

  lemma RecvBytes(p: Packet, version: u8)
    requires p.Recv?
    ensures Put(BodyFields(p, version)) == OnlyIf(version > 3, [if p.receipt then 0x80 else 0])
            + OnlyIf(version > 2, Sized(p.msgKey)) + BigEndian(Unsigned64(p.messageID), 8)
            + BigEndian(p.messageSeq, 4) + OnlyIf(version > 1, Sized(p.clientMsgNo))
            + BigEndian(Unsigned32(p.timestamp), 4) + Sized(p.channelID) + [p.channelType] + Sized(p.fromUID)
            + p.payload
  {
    var rest := RecvRest([], p.messageID, p.messageSeq, version > 1, p.clientMsgNo, p.timestamp, p.channelID,
                         p.channelType, p.fromUID, p.payload);
    var b := SettingAndKey(version, Setting(p.receipt), p.msgKey, rest);
    rest := RecvRest(b, p.messageID, p.messageSeq, version > 1, p.clientMsgNo, p.timestamp, p.channelID,
                     p.channelType, p.fromUID, p.payload);
  }

  // ---------- encoding ----------

  method EncodeConnect(p: Packet, version: u8) returns (body: seq<byte>)
    requires p.Connect?
    ensures body == Put(BodyFields(p, version))
    ensures body == [p.protocol] + OnlyIf(p.protocol > 2, Sized(p.clientKey)) + [p.deviceFlag] + Sized(p.deviceID)
            + BigEndian(Unsigned64(p.clientTimestamp), 8) + Sized(p.uid) + Sized(p.token)
  {
    ConnectBytes(p, version);
    var enc := new Encoder(BodyFields(p, version));
    enc.WriteUint8(p.protocol);
    if p.protocol > 2 {
      enc.WriteString(p.clientKey);
    }
    enc.WriteUint8(p.deviceFlag);
    enc.WriteString(p.deviceID);
    enc.WriteInt64(p.clientTimestamp);
    enc.WriteString(p.uid);
    enc.WriteString(p.token);
    enc.Done();
    body := enc.bytes;
  }

  method EncodeConnack(p: Packet, version: u8) returns (body: seq<byte>)
    requires p.Connack?
    ensures body == Put(BodyFields(p, version))
    ensures body == OnlyIf(version > 2, Sized(p.serverKey)) + OnlyIf(version > 2, Sized(p.salt))
            + BigEndian(Unsigned64(p.timeDiff), 8) + [p.reasonCode]
  {
    ConnackBytes(p, version);
    var enc := new Encoder(BodyFields(p, version));
    if version > 2 {
      enc.WriteString(p.serverKey);
      enc.WriteString(p.salt);
    }
    enc.WriteInt64(p.timeDiff);
    enc.WriteUint8(p.reasonCode);
    enc.Done();
    body := enc.bytes;
  }

  method EncodeSend(p: Packet, version: u8) returns (body: seq<byte>)
    requires p.Send?
    ensures body == Put(BodyFields(p, version))
    ensures body == OnlyIf(version > 3, [if p.receipt then 0x80 else 0]) + OnlyIf(version > 2, Sized(p.msgKey))
            + BigEndian(p.clientSeq % 0x1_0000_0000, 4) + OnlyIf(version > 1, Sized(p.clientMsgNo))
            + Sized(p.channelID) + [p.channelType] + p.payload
  {
    SendBytes(p, version);
    var enc := new Encoder(BodyFields(p, version));
    if version > 3 {
      enc.WriteUint8(Setting(p.receipt));
    }
    if version > 2 {
      enc.WriteString(p.msgKey);
    }
    enc.WriteUint32(p.clientSeq % 0x1_0000_0000);
    if version > 1 {
      enc.WriteString(p.clientMsgNo);
    }
    enc.WriteString(p.channelID);
    enc.WriteUint8(p.channelType);
    enc.WriteBytes(p.payload);
    enc.Done();
    body := enc.bytes;
  }

  method EncodeSendack(p: Packet, version: u8) returns (body: seq<byte>)
    requires p.Sendack?
    ensures body == Put(BodyFields(p, version))
    ensures body == BigEndian(p.clientSeq % 0x1_0000_0000, 4) + BigEndian(Unsigned64(p.messageID), 8)
            + BigEndian(p.messageSeq, 4) + [p.reasonCode]
  {
    SendackBytes(p, version);
    var enc := new Encoder(BodyFields(p, version));
    enc.WriteUint32(p.clientSeq % 0x1_0000_0000);
    enc.WriteInt64(p.messageID);
    enc.WriteUint32(p.messageSeq);
    enc.WriteUint8(p.reasonCode);
    enc.Done();
    body := enc.bytes;
  }

  method EncodeRecv(p: Packet, version: u8) returns (body: seq<byte>)
    requires p.Recv?
    ensures body == Put(BodyFields(p, version))
    ensures body == OnlyIf(version > 3, [if p.receipt then 0x80 else 0]) + OnlyIf(version > 2, Sized(p.msgKey))
            + BigEndian(Unsigned64(p.messageID), 8) + BigEndian(p.messageSeq, 4)
            + OnlyIf(version > 1, Sized(p.clientMsgNo)) + BigEndian(Unsigned32(p.timestamp), 4) + Sized(p.channelID)
            + [p.channelType] + Sized(p.fromUID) + p.payload
  {
    RecvBytes(p, version);
    var enc := new Encoder(BodyFields(p, version));
    if version > 3 {
      enc.WriteUint8(Setting(p.receipt));
    }
    if version > 2 {
      enc.WriteString(p.msgKey);
    }
    enc.WriteInt64(p.messageID);
    enc.WriteUint32(p.messageSeq);
    if version > 1 {
      enc.WriteString(p.clientMsgNo);
    }
    enc.WriteInt32(p.timestamp);
    enc.WriteString(p.channelID);
    enc.WriteUint8(p.channelType);
    enc.WriteString(p.fromUID);
    enc.WriteBytes(p.payload);
    enc.Done();
    body := enc.bytes;
  }

  method EncodeRecvack(p: Packet, version: u8) returns (body: seq<byte>)
    requires p.Recvack?
    ensures body == Put(BodyFields(p, version))
    ensures body == BigEndian(Unsigned64(p.messageID), 8) + BigEndian(p.messageSeq, 4)
  {
    RecvackBytes(p, version);
    var enc := new Encoder(BodyFields(p, version));
    enc.WriteInt64(p.messageID);
    enc.WriteUint32(p.messageSeq);
    enc.Done();
    body := enc.bytes;
  }

  method EncodeDisconnect(p: Packet, version: u8) returns (body: seq<byte>)
    requires p.Disconnect?
    ensures body == Put(BodyFields(p, version))
    ensures body == [p.reasonCode] + Sized(p.reason)
  {
    DisconnectBytes(p, version);
    var enc := new Encoder(BodyFields(p, version));
    enc.WriteUint8(p.reasonCode);
    enc.WriteString(p.reason);
    enc.Done();
    body := enc.bytes;
  }

  // ---------- decoding ----------

  /** Reads a string if this version has it. */
  method StringIf(dec: Decoder, present: bool) returns (r: Result<text>)
    requires dec.Valid() && (present ==> dec.rest.KCons? && dec.rest.head == KString)
    modifies dec
    ensures r.Ok? ==> dec.Valid() && dec.rest == if present then old(dec.rest).tail else old(dec.rest)
    ensures old(dec.ahead) == match r
                              case Ok(s) => if present then Before(FString(s), dec.ahead) else dec.ahead
                              case Failed => Failed
                              case Crashed => Crashed
    ensures r.Ok? && !present ==> r.value == []
  {
    if present {
      r := dec.String();
    } else {
      r := Ok([]);
    }
  }

  /** Reads a byte if this version has it. */
  method ByteIf(dec: Decoder, present: bool) returns (r: Result<u8>)
    requires dec.Valid() && (present ==> dec.rest.KCons? && dec.rest.head == KU8)
    modifies dec
    ensures r.Ok? ==> dec.Valid() && dec.rest == if present then old(dec.rest).tail else old(dec.rest)
    ensures old(dec.ahead) == match r
                              case Ok(n) => if present then Before(FU8(n), dec.ahead) else dec.ahead
                              case Failed => Failed
                              case Crashed => Crashed
    ensures r.Ok? && !present ==> r.value == 0
  {
    if present {
      r := dec.Uint8();
    } else {
      r := Ok(0);
    }
  }

  method DecodeConnect(framer: Framer, data: seq<byte>, version: u8) returns (r: Result<Packet>)
    requires framer.packetType == CONNECT
    ensures IsBody(framer, data, version, r)
  {
    var dec := new Decoder(data, Layout(CONNECT, version, FirstByte(data)));
    var protocol :- dec.Uint8();
    assert protocol == FirstByte(data);
    var clientKey :- StringIf(dec, protocol > 2);
    var deviceFlag :- dec.Uint8();
    var deviceID :- dec.String();
    var clientTimestamp :- dec.Int64();
    var uid :- dec.String();
    var token :- dec.String();
    dec.Done();
    r := Ok(Connect(framer, protocol, clientKey, deviceID, deviceFlag, clientTimestamp, uid, token));
  }

  method DecodeConnack(framer: Framer, data: seq<byte>, version: u8) returns (r: Result<Packet>)
    requires framer.packetType == CONNACK
    ensures IsBody(framer, data, version, r)
  {
    var dec := new Decoder(data, Layout(CONNACK, version, FirstByte(data)));
    var serverKey :- StringIf(dec, version > 2);
    var salt :- StringIf(dec, version > 2);
    var timeDiff :- dec.Int64();
    var reasonCode :- dec.Uint8();
    dec.Done();
    r := Ok(Connack(framer, serverKey, salt, timeDiff, reasonCode));
  }

  lemma SendBody(framer: Framer, data: seq<byte>, version: u8, setting: u8, msgKey: text, clientSeq: u32,
                 clientMsgNo: text, channelID: text, channelType: u8, payload: seq<byte>)
    requires framer.packetType == SEND
    requires version <= 1 ==> clientMsgNo == []
    requires version <= 2 ==> msgKey == []
    requires version <= 3 ==> setting == 0
    requires Get(Layout(SEND, version, FirstByte(data)), data, 0)
          == Ok(U8If(version > 3, setting, StrIf(version > 2, msgKey, U32(clientSeq,
                StrIf(version > 1, clientMsgNo, Str(channelID, U8(channelType, All(payload))))))))
    ensures IsBody(framer, data, version,
                   Ok(Send(framer, setting >= 0x80, msgKey, clientSeq, clientMsgNo, channelID, channelType, payload)))
  {
  }

  method DecodeSend(framer: Framer, data: seq<byte>, version: u8) returns (r: Result<Packet>)
    requires framer.packetType == SEND
    ensures IsBody(framer, data, version, r)
  {
    var dec := new Decoder(data, Layout(SEND, version, FirstByte(data)));
    var setting :- ByteIf(dec, version > 3);
    var msgKey :- StringIf(dec, version > 2);
    var clientSeq :- dec.Uint32();
    var clientMsgNo :- StringIf(dec, version > 1);
    var channelID :- dec.String();
    var channelType :- dec.Uint8();
    var payload := dec.BinaryAll();
    dec.Done();
    SendBody(framer, data, version, setting, msgKey, clientSeq, clientMsgNo, channelID, channelType, payload);
    r := Ok(Send(framer, setting >= 0x80, msgKey, clientSeq, clientMsgNo, channelID, channelType, payload));
  }

  method DecodeSendack(framer: Framer, data: seq<byte>, version: u8) returns (r: Result<Packet>)
    requires framer.packetType == SENDACK
    ensures IsBody(framer, data, version, r)
  {
    var dec := new Decoder(data, Layout(SENDACK, version, FirstByte(data)));
    var clientSeq :- dec.Uint32();
    var messageID :- dec.Int64();
    var messageSeq :- dec.Uint32();
    var reasonCode :- dec.Uint8();
    dec.Done();
    r := Ok(Sendack(framer, clientSeq, messageID, messageSeq, [], reasonCode));
  }

  lemma RecvBody(framer: Framer, data: seq<byte>, version: u8, setting: u8, msgKey: text, messageID: i64,
                 messageSeq: u32, clientMsgNo: text, timestamp: i32, channelID: text, channelType: u8, fromUID: text,
                 payload: seq<byte>)
    requires framer.packetType == RECV
    requires version <= 1 ==> clientMsgNo == []
    requires version <= 2 ==> msgKey == []
    requires version <= 3 ==> setting == 0
    requires Get(Layout(RECV, version, FirstByte(data)), data, 0)
          == Ok(U8If(version > 3, setting, StrIf(version > 2, msgKey, I64(messageID, U32(messageSeq,
                StrIf(version > 1, clientMsgNo, I32(timestamp, Str(channelID, U8(channelType, Str(fromUID,
                All(payload)))))))))))
    ensures IsBody(framer, data, version,
                   Ok(Recv(framer, setting >= 0x80, msgKey, messageID, messageSeq, clientMsgNo, timestamp, channelID,
                           channelType, fromUID, payload)))
  {
  }

  method DecodeRecv(framer: Framer, data: seq<byte>, version: u8) returns (r: Result<Packet>)
    requires framer.packetType == RECV
    ensures IsBody(framer, data, version, r)
  {
    var dec := new Decoder(data, Layout(RECV, version, FirstByte(data)));
    var setting :- ByteIf(dec, version > 3);
    var msgKey :- StringIf(dec, version > 2);
    assert dec.rest == RecvLayout(version);
    var messageID :- dec.Int64();
    var messageSeq :- dec.Uint32();
    var clientMsgNo :- StringIf(dec, version > 1);
    assert dec.rest == RecvAddress();
    var timestamp :- dec.Int32();
    var channelID :- dec.String();
    var channelType :- dec.Uint8();
    var fromUID :- dec.String();
    var payload := dec.BinaryAll();
    dec.Done();
    RecvBody(framer, data, version, setting, msgKey, messageID, messageSeq, clientMsgNo, timestamp, channelID,
             channelType, fromUID, payload);
    r := Ok(Recv(framer, setting >= 0x80, msgKey, messageID, messageSeq, clientMsgNo, timestamp, channelID,
                 channelType, fromUID, payload));
  }

  method DecodeRecvack(framer: Framer, data: seq<byte>, version: u8) returns (r: Result<Packet>)
    requires framer.packetType == RECVACK
    ensures IsBody(framer, data, version, r)
  {
    var dec := new Decoder(data, Layout(RECVACK, version, FirstByte(data)));
    var messageID :- dec.Int64();
    var messageSeq :- dec.Uint32();
    dec.Done();
    r := Ok(Recvack(framer, messageID, messageSeq));
  }

  method DecodeDisconnect(framer: Framer, data: seq<byte>, version: u8) returns (r: Result<Packet>)
    requires framer.packetType == DISCONNECT
    ensures IsBody(framer, data, version, r)
  {
    var dec := new Decoder(data, Layout(DISCONNECT, version, FirstByte(data)));
    var reasonCode :- dec.Uint8();
    var reason :- dec.String();
    dec.Done();
    r := Ok(Disconnect(framer, reasonCode, reason));
  }

  // ---------- bodies round trip ----------

  /** Strings as long as their headers allow, as far as this version carries them. */
  predicate Fits(p: Packet, version: u8) {
    match p
    case Connect(_, protocol, clientKey, deviceID, _, _, uid, token) =>
      (protocol > 2 ==> |clientKey| < 0x8000) && |deviceID| < 0x8000 && |uid| < 0x8000 && |token| < 0x8000
    case Connack(_, serverKey, salt, _, _) => version > 2 ==> |serverKey| < 0x8000 && |salt| < 0x8000
    case Send(_, _, msgKey, _, clientMsgNo, channelID, _, _) =>
      (version > 2 ==> |msgKey| < 0x8000) && (version > 1 ==> |clientMsgNo| < 0x8000) && |channelID| < 0x8000
    case Sendack(_, _, _, _, _, _) => true
    case Recv(_, _, msgKey, _, _, clientMsgNo, _, channelID, _, fromUID, _) =>
      && (version > 2 ==> |msgKey| < 0x8000) && (version > 1 ==> |clientMsgNo| < 0x8000)
      && |channelID| < 0x8000 && |fromUID| < 0x8000
    case Recvack(_, _, _) => true
    case Disconnect(_, _, reason) => |reason| < 0x8000
    case Ping => true
    case Pong => true
  }

  lemma FieldsFit(p: Packet, version: u8)
    requires !p.Ping? && !p.Pong?
    ensures Fitting(BodyFields(p, version)) <==> Fits(p, version)
    ensures Closed(BodyFields(p, version))
  {
  }

  /** What is written says itself how to read it. */
  lemma LayoutOfFields(p: Packet, version: u8)
    requires !p.Ping? && !p.Pong?
    ensures KindsOf(BodyFields(p, version)) == Layout(PacketType(p), version, FirstByte(Put(BodyFields(p, version))))
  {
    match p
    case Connect(_, protocol, clientKey, deviceID, deviceFlag, clientTimestamp, uid, token) =>
      var rest := StrIf(protocol > 2, clientKey, U8(deviceFlag, Str(deviceID, I64(clientTimestamp,
                  Str(uid, Str(token, FNil))))));
      assert BodyFields(p, version) == FCons(FU8(protocol), rest);
      assert Put(BodyFields(p, version)) == [protocol] + Put(rest);
    case _ =>
  }

  /** The body determines exactly what its version carries. */
  lemma FieldsDetermine(p: Packet, q: Packet, version: u8, framer: Framer)
    requires PacketType(p) == PacketType(q) && !p.Ping? && !p.Pong?
    ensures BodyFields(p, version) == BodyFields(q, version)
            <==> Carried(p, version, framer) == Carried(q, version, framer)
  {
    if p.Recv? || p.Send? {
      MessageFieldsDetermine(p, q, version, framer);
    } else {
      match p
      case Connect(_, _, _, _, _, _, _, _) =>
      case Connack(_, _, _, _, _) =>
      case _ =>
    }
  }

  lemma MessageFieldsDetermine(p: Packet, q: Packet, version: u8, framer: Framer)
    requires (p.Recv? && q.Recv?) || (p.Send? && q.Send?)
    ensures BodyFields(p, version) == BodyFields(q, version)
            <==> Carried(p, version, framer) == Carried(q, version, framer)
  {
    match p
    case Recv(_, _, _, _, _, _, _, _, _, _, _) =>
    case _ =>
  }

  lemma CarriedTwice(p: Packet, version: u8, framer: Framer)
    ensures Carried(Carried(p, version, framer), version, framer) == Carried(p, version, framer)
    ensures PacketType(Carried(p, version, framer)) == PacketType(p)
  {
  }

  lemma SettledFields(p: Packet, version: u8)
    requires !p.Ping? && !p.Pong?
    ensures Settled(PacketType(p), version, BodyFields(p, version)) == BodyFields(p, version)
  {
  }

  /** Decoding a body gives what the version carries, exactly when its strings fit; nothing else comes out then. */
  lemma BodyRoundTrip(p: Packet, version: u8, framer: Framer, r: Result<Packet>)
    requires !p.Ping? && !p.Pong? && framer.packetType == PacketType(p) && Fits(p, version)
    ensures IsBody(framer, Put(BodyFields(p, version)), version, r) <==> r == Ok(Carried(p, version, framer))
  {
    var fs := BodyFields(p, version);
    FieldsFit(p, version);
    LayoutOfFields(p, version);
    PutGet(fs, Put(fs), 0);
    SettledFields(p, version);
    CarriedTwice(p, version, framer);
    BodyIs(framer, Put(fs), version, r);
    FieldsDetermine(p, Carried(p, version, framer), version, framer);
    if r.Ok? && PacketType(r.value) == PacketType(p) {
      FieldsDetermine(p, r.value, version, framer);
    }
  }

  lemma TooLongBody(p: Packet, version: u8, framer: Framer)
    requires !p.Ping? && !p.Pong? && framer.packetType == PacketType(p) && !Fits(p, version)
    ensures !IsBody(framer, Put(BodyFields(p, version)), version, Ok(Carried(p, version, framer)))
  {
    var fs, b := BodyFields(p, version), Put(BodyFields(p, version));
    var q := Carried(p, version, framer);
    FieldsFit(p, version);
    LayoutOfFields(p, version);
    PutGet(fs, b, 0);
    CarriedTwice(p, version, framer);
    FieldsDetermine(p, q, version, framer);
    BodyIs(framer, b, version, Ok(q));
    if IsBody(framer, b, version, Ok(q)) {
      SameSetting(p, version, Get(KindsOf(fs), b, 0).value);
    }
  }

  /** The setting byte that was written is one that is kept. */
  lemma SameSetting(p: Packet, version: u8, fs: Fields)
    requires !p.Ping? && !p.Pong?
    requires var b := Put(BodyFields(p, version)); Get(KindsOf(BodyFields(p, version)), b, 0) == Ok(fs)
    requires Settled(PacketType(p), version, fs) == BodyFields(p, version)
    ensures fs == BodyFields(p, version)
  {
    var own := BodyFields(p, version);
    if version > 3 && (p.Send? || p.Recv?) {
      assert own.FCons? && own.head == FU8(Setting(p.receipt));
      assert Put(own) == [Setting(p.receipt)] + Put(own.tail);
      assert KindsOf(own) == KCons(KU8, KindsOf(own.tail));
      assert GetField(KU8, Put(own), 0) == Got(own.head, 1);
    }
  }

  // ---------- which packet these bytes are ----------

  lemma ConnectDecodes(p: Packet, version: u8, framer: Framer, body: seq<byte>, r: Result<Packet>)
    requires p.Connect? && framer.packetType == 1 && Fits(p, version)
    requires body == [p.protocol] + OnlyIf(p.protocol > 2, Sized(p.clientKey)) + [p.deviceFlag] + Sized(p.deviceID)
             + BigEndian(Unsigned64(p.clientTimestamp), 8) + Sized(p.uid) + Sized(p.token)
    ensures IsBody(framer, body, version, r)
            <==> r == Ok(Connect(framer, p.protocol, OnlyIf(p.protocol > 2, p.clientKey), p.deviceID, p.deviceFlag,
                                 p.clientTimestamp, p.uid, p.token))
  {
    ConnectBytes(p, version);
    BodyRoundTrip(p, version, framer, r);
  }

  lemma ConnackDecodes(p: Packet, version: u8, framer: Framer, body: seq<byte>, r: Result<Packet>)
    requires p.Connack? && framer.packetType == 2 && Fits(p, version)
    requires body == OnlyIf(version > 2, Sized(p.serverKey)) + OnlyIf(version > 2, Sized(p.salt))
             + BigEndian(Unsigned64(p.timeDiff), 8) + [p.reasonCode]
    ensures IsBody(framer, body, version, r)
            <==> r == Ok(Connack(framer, OnlyIf(version > 2, p.serverKey), OnlyIf(version > 2, p.salt), p.timeDiff,
                                 p.reasonCode))
  {
    ConnackBytes(p, version);
    BodyRoundTrip(p, version, framer, r);
  }

  lemma SendDecodes(p: Packet, version: u8, framer: Framer, body: seq<byte>, r: Result<Packet>)
    requires p.Send? && framer.packetType == 3 && Fits(p, version)
    requires body == OnlyIf(version > 3, [if p.receipt then 0x80 else 0]) + OnlyIf(version > 2, Sized(p.msgKey))
             + BigEndian(p.clientSeq % 0x1_0000_0000, 4) + OnlyIf(version > 1, Sized(p.clientMsgNo))
             + Sized(p.channelID) + [p.channelType] + p.payload
    ensures IsBody(framer, body, version, r)
            <==> r == Ok(Send(framer, version > 3 && p.receipt, OnlyIf(version > 2, p.msgKey),
                              p.clientSeq % 0x1_0000_0000, OnlyIf(version > 1, p.clientMsgNo), p.channelID,
                              p.channelType, p.payload))
  {
    SendBytes(p, version);
    BodyRoundTrip(p, version, framer, r);
  }

  lemma SendackDecodes(p: Packet, version: u8, framer: Framer, body: seq<byte>, r: Result<Packet>)
    requires p.Sendack? && framer.packetType == 4 && Fits(p, version)
    requires body == BigEndian(p.clientSeq % 0x1_0000_0000, 4) + BigEndian(Unsigned64(p.messageID), 8)
             + BigEndian(p.messageSeq, 4) + [p.reasonCode]
    ensures IsBody(framer, body, version, r) <==> r == Ok(Sendack(framer, p.clientSeq % 0x1_0000_0000, p.messageID,
                                                                  p.messageSeq, [], p.reasonCode))
  {
    SendackBytes(p, version);
    BodyRoundTrip(p, version, framer, r);
  }

  lemma RecvDecodes(p: Packet, version: u8, framer: Framer, body: seq<byte>, r: Result<Packet>)
    requires p.Recv? && framer.packetType == 5 && Fits(p, version)
    requires body == OnlyIf(version > 3, [if p.receipt then 0x80 else 0]) + OnlyIf(version > 2, Sized(p.msgKey))
             + BigEndian(Unsigned64(p.messageID), 8) + BigEndian(p.messageSeq, 4)
             + OnlyIf(version > 1, Sized(p.clientMsgNo)) + BigEndian(Unsigned32(p.timestamp), 4) + Sized(p.channelID)
             + [p.channelType] + Sized(p.fromUID) + p.payload
    ensures IsBody(framer, body, version, r)
            <==> r == Ok(Recv(framer, version > 3 && p.receipt, OnlyIf(version > 2, p.msgKey), p.messageID,
                              p.messageSeq, OnlyIf(version > 1, p.clientMsgNo), p.timestamp, p.channelID,
                              p.channelType, p.fromUID, p.payload))
  {
    RecvBytes(p, version);
    BodyRoundTrip(p, version, framer, r);
  }

  lemma RecvackDecodes(p: Packet, version: u8, framer: Framer, body: seq<byte>, r: Result<Packet>)
    requires p.Recvack? && framer.packetType == 6 && Fits(p, version)
    requires body == BigEndian(Unsigned64(p.messageID), 8) + BigEndian(p.messageSeq, 4)
    ensures IsBody(framer, body, version, r) <==> r == Ok(Recvack(framer, p.messageID, p.messageSeq))
  {
    RecvackBytes(p, version);
    BodyRoundTrip(p, version, framer, r);
  }

  lemma DisconnectDecodes(p: Packet, version: u8, framer: Framer, body: seq<byte>, r: Result<Packet>)
    requires p.Disconnect? && framer.packetType == 9 && Fits(p, version)
    requires body == [p.reasonCode] + Sized(p.reason)
    ensures IsBody(framer, body, version, r) <==> r == Ok(Disconnect(framer, p.reasonCode, p.reason))
  {
    DisconnectBytes(p, version);
    BodyRoundTrip(p, version, framer, r);
  }
}
