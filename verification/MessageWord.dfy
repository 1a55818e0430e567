/**
 * The 64-bit parameter word of message records: the writer's packing and the converter's
 * unpacking are inverse bijections between words and field values.
 */
module MessageWord {

  /** The four fields; a field value is held in a word of its own. */
  datatype Message = Message(nid: bv64, len: bv64, tag: bv64, comm: bv64)

  predicate InRange(m: Message) {
    m.nid < 0x10000 && m.len < 0x4000000 && m.tag < 0x10000 && m.comm < 0x40
  }

  /** decodeParameter */
  function Decode(xpar: bv64): Message {
    Message(
      ((xpar >> 24) & 0xff) | (((xpar >> 56) & 0xff) << 8),
      (xpar & 0xffff) | (((xpar << 22) >> 54) << 16),
      ((xpar >> 16) & 0xff) | (((xpar >> 48) & 0xff) << 8),
      (xpar << 16) >> 58)
  }

  /** The parameter as the tracing library composes it. */
  function Encode(m: Message): bv64 {
    (((m.len >> 16) << 54) >> 22)
    | (((m.tag >> 8) & 0xff) << 48)
    | (((m.nid >> 8) & 0xff) << 56)
    | (m.len & 0xffff)
    | ((m.tag & 0xff) << 16)
    | ((m.nid & 0xff) << 24)
    | ((m.comm << 58) >> 16)
  }

  /** Field values always fit, and packing them again gives the word back: no bit is lost or used twice. */
  lemma EncodeDecode(xpar: bv64)
    ensures InRange(Decode(xpar)) && Encode(Decode(xpar)) == xpar
  {
  }

  lemma ShortFieldsKept(m: Message)
    requires InRange(m)
    ensures Decode(Encode(m)).nid == m.nid && Decode(Encode(m)).tag == m.tag
  {
  }

  lemma LengthKept(m: Message)
    requires InRange(m)
    ensures Decode(Encode(m)).len == m.len
  {
  }

  lemma CommunicatorKept(m: Message)
    requires InRange(m)
    ensures Decode(Encode(m)).comm == m.comm
  {
  }

  /** Unpacking gives back what was packed exactly when the values fit their fields. */
  lemma DecodeEncode(m: Message)
    ensures Decode(Encode(m)) == m <==> InRange(m)
  {
    EncodeDecode(Encode(m));
    if InRange(m) {
      ShortFieldsKept(m);
      LengthKept(m);
      CommunicatorKept(m);
    }
  }

  /** So decoding is a bijection onto the messages in range. */
  lemma DecodeIsInjective(x: bv64, y: bv64)
    requires Decode(x) == Decode(y)
    ensures x == y
  {
    EncodeDecode(x);
    EncodeDecode(y);
  }

  /** Where the bits go: node 0x1234, length 0x3456789, tag 0xabcd, communicator 0x2a. */
  lemma PackedExample()
    ensures Encode(Message(0x1234, 0x3456789, 0xabcd, 0x2a)) == 0x12abab4534cd6789
    ensures Decode(0x12abab4534cd6789) == Message(0x1234, 0x3456789, 0xabcd, 0x2a)
  {
  }

  /** Fields do not disturb each other: packing together is the union of packing each one alone. */
  lemma PackedTogether(m: Message)
    ensures Encode(m) == Encode(Message(m.nid, 0, 0, 0)) | Encode(Message(0, m.len, 0, 0))
                         | Encode(Message(0, 0, m.tag, 0)) | Encode(Message(0, 0, 0, m.comm))
  {
  }
}
