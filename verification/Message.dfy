/** The stored form of a message. */
module MessageModel {
  import opened Bytes
  import opened Codec

  datatype Message = Message(
    header: u8, appliIndex: u64, version: u8, setting: u8,
    messageID: i64, messageSeq: u32, clientMsgNo: seq<byte>, timestamp: i32,
    fromUID: seq<byte>, queueUID: seq<byte>, channelID: seq<byte>, channelType: u8,
    payload: seq<byte>)

  /** What is stored of a message: everything but the apply index, which the frame around it carries. */
  function StoredFields(m: Message): Fields {
    U8(m.header, U8(m.version, U8(m.setting, I64(m.messageID, U32(m.messageSeq,
    Str(m.clientMsgNo, I32(m.timestamp, Str(m.fromUID, Str(m.queueUID,
    Str(m.channelID, U8(m.channelType, All(m.payload))))))))))))
  }

  function StoredLayout(): Kinds {
    KCons(KU8, KCons(KU8, KCons(KU8, KCons(KI64, KCons(KU32,
    KCons(KString, KCons(KI32, KCons(KString, KCons(KString,
    KCons(KString, KCons(KU8, KCons(KAll, KNil))))))))))))
  }

  predicate Fits(m: Message) {
    |m.clientMsgNo| < 0x8000 && |m.fromUID| < 0x8000 && |m.queueUID| < 0x8000 && |m.channelID| < 0x8000
  }

  /** The fields before the client's message number. */
  lemma NumberBytes(header: u8, version: u8, setting: u8, messageID: i64, messageSeq: u32, rest: Fields)
    returns (b: seq<byte>)
    ensures b == [header] + [version] + [setting] + BigEndian(Unsigned64(messageID), 8) + BigEndian(messageSeq, 4)
    ensures Put(U8(header, U8(version, U8(setting, I64(messageID, U32(messageSeq, rest)))))) == b + Put(rest)
  {
    var f4 := U32(messageSeq, rest);
    var f3 := I64(messageID, f4);
    var f2 := U8(setting, f3);
    var f1 := U8(version, f2);
    b := PutU8([], header, f1);
    b := PutU8(b, version, f2);
    b := PutU8(b, setting, f3);
    b := PutI64(b, messageID, f4);
    b := PutU32(b, messageSeq, rest);
  }

  /** The fields from the client's message number on. */
  lemma NamedBytes(done: seq<byte>, clientMsgNo: seq<byte>, timestamp: i32, fromUID: seq<byte>, queueUID: seq<byte>,
                   channelID: seq<byte>, channelType: u8, payload: seq<byte>)
    returns (fs: Fields)
    ensures fs == Str(clientMsgNo, I32(timestamp, Str(fromUID, Str(queueUID, Str(channelID,
                  U8(channelType, All(payload)))))))
    ensures done + Put(fs) == done + Sized(clientMsgNo) + BigEndian(Unsigned32(timestamp), 4) + Sized(fromUID)
                              + Sized(queueUID) + Sized(channelID) + [channelType] + payload
  {
    var f6 := All(payload);
    var f5 := U8(channelType, f6);
    var f4 := Str(channelID, f5);
    var f3 := Str(queueUID, f4);
    var f2 := Str(fromUID, f3);
    var f1 := I32(timestamp, f2);
    fs := Str(clientMsgNo, f1);
    var b := PutStr(done, clientMsgNo, f1);
    b := PutI32(b, timestamp, f2);
    b := PutStr(b, fromUID, f3);
    b := PutStr(b, queueUID, f4);
    b := PutStr(b, channelID, f5);
    b := PutU8(b, channelType, f6);
  }

  lemma StoredBytes(m: Message)
    ensures Put(StoredFields(m))
         == [m.header] + [m.version] + [m.setting] + BigEndian(Unsigned64(m.messageID), 8) + BigEndian(m.messageSeq, 4)
            + Sized(m.clientMsgNo) + BigEndian(Unsigned32(m.timestamp), 4) + Sized(m.fromUID) + Sized(m.queueUID)
            + Sized(m.channelID) + [m.channelType] + m.payload
  {
    var fs := NamedBytes([], m.clientMsgNo, m.timestamp, m.fromUID, m.queueUID, m.channelID, m.channelType, m.payload);
    var b := NumberBytes(m.header, m.version, m.setting, m.messageID, m.messageSeq, fs);
    fs := NamedBytes(b, m.clientMsgNo, m.timestamp, m.fromUID, m.queueUID, m.channelID, m.channelType, m.payload);
  }

  method MarshalMessage(m: Message) returns (data: seq<byte>)
    ensures data == Put(StoredFields(m))
    ensures data
         == [m.header] + [m.version] + [m.setting] + BigEndian(Unsigned64(m.messageID), 8) + BigEndian(m.messageSeq, 4)
            + Sized(m.clientMsgNo) + BigEndian(Unsigned32(m.timestamp), 4) + Sized(m.fromUID) + Sized(m.queueUID)
            + Sized(m.channelID) + [m.channelType] + m.payload
  {
    StoredBytes(m);
    var enc := new Encoder(StoredFields(m));
    enc.WriteUint8(m.header);
    enc.WriteUint8(m.version);
    enc.WriteUint8(m.setting);
    enc.WriteInt64(m.messageID);
    enc.WriteUint32(m.messageSeq);
    enc.WriteString(m.clientMsgNo);
    enc.WriteInt32(m.timestamp);
    enc.WriteString(m.fromUID);
    enc.WriteString(m.queueUID);
    enc.WriteString(m.channelID);
    enc.WriteUint8(m.channelType);
    enc.WriteBytes(m.payload);
    enc.Done();
    data := enc.bytes;
  }

  ghost predicate ReadsStored(data: seq<byte>, got: Result<Fields>) {
    got == Get(StoredLayout(), data, 0)
  }

  /** `r` is made of the fields that were read. */
  ghost predicate MeansStored(got: Result<Fields>, appliIndex: u64, r: Result<Message>) {
    match got
    case Ok(fs) => r.Ok? && StoredFields(r.value) == fs && r.value.appliIndex == appliIndex
    case Failed => r == Failed
    case Crashed => r == Crashed
  }

  /** `r` is what decoding `data` into a message with this apply index gives. */
  ghost predicate IsStored(data: seq<byte>, appliIndex: u64, r: Result<Message>) {
    forall got :: ReadsStored(data, got) ==> MeansStored(got, appliIndex, r)
  }

  lemma StoredBody(data: seq<byte>, m: Message)
    requires Get(StoredLayout(), data, 0) == Ok(StoredFields(m))
    ensures IsStored(data, m.appliIndex, Ok(m))
  {
  }

  /** Decodes into a message whose apply index is left as it was. */
  method UnmarshalMessage(data: seq<byte>, appliIndex: u64) returns (r: Result<Message>)
    ensures IsStored(data, appliIndex, r)
  {
    var dec := new Decoder(data, StoredLayout());
    var header :- dec.Uint8();
    var version :- dec.Uint8();
    var setting :- dec.Uint8();
    var messageID :- dec.Int64();
    var messageSeq :- dec.Uint32();
    var clientMsgNo :- dec.String();
    var timestamp :- dec.Int32();
    var fromUID :- dec.String();
    var queueUID :- dec.String();
    var channelID :- dec.String();
    var channelType :- dec.Uint8();
    var payload := dec.BinaryAll();
    dec.Done();
    var m := Message(header, appliIndex, version, setting, messageID, messageSeq, clientMsgNo, timestamp,
                     fromUID, queueUID, channelID, channelType, payload);
    StoredBody(data, m);
    r := Ok(m);
  }

  /** The stored fields determine the message, apart from the apply index. */
  lemma StoredFieldsDetermine(a: Message, b: Message)
    ensures StoredFields(a) == StoredFields(b) <==> a == b.(appliIndex := a.appliIndex)
  {
  }

  lemma FieldsReadBack(m: Message)
    ensures Get(StoredLayout(), Put(StoredFields(m)), 0) == Ok(StoredFields(m)) <==> Fits(m)
  {
    var fs := StoredFields(m);
    assert KindsOf(fs) == StoredLayout();
    PutGet(fs, Put(fs), 0);
  }

  /** A stored message is read back, apart from the apply index, exactly when its strings fit; then nothing else is. */
  lemma MessageRoundTrip(m: Message, appliIndex: u64, r: Result<Message>)
    ensures IsStored(Put(StoredFields(m)), appliIndex, Ok(m.(appliIndex := appliIndex))) <==> Fits(m)
    ensures Fits(m) && IsStored(Put(StoredFields(m)), appliIndex, r) ==> r == Ok(m.(appliIndex := appliIndex))
  {
    FieldsReadBack(m);
    assert ReadsStored(Put(StoredFields(m)), Get(StoredLayout(), Put(StoredFields(m)), 0));
    StoredFieldsDetermine(m.(appliIndex := appliIndex), m);
    if r.Ok? {
      StoredFieldsDetermine(r.value, m);
    }
  }

  /** These bytes are exactly this message, under the apply index it is decoded into. */
  lemma StoredDecodes(m: Message, data: seq<byte>, appliIndex: u64, r: Result<Message>)
    requires Fits(m)
    requires data
          == [m.header] + [m.version] + [m.setting] + BigEndian(Unsigned64(m.messageID), 8) + BigEndian(m.messageSeq, 4)
             + Sized(m.clientMsgNo) + BigEndian(Unsigned32(m.timestamp), 4) + Sized(m.fromUID) + Sized(m.queueUID)
             + Sized(m.channelID) + [m.channelType] + m.payload
    ensures IsStored(data, appliIndex, r) <==> r == Ok(m.(appliIndex := appliIndex))
  {
    StoredBytes(m);
    MessageRoundTrip(m, appliIndex, r);
  }
}
