/** The SCALE form of messages and of message metadata. */
module Wire {
  import opened Wrappers
  import opened ByteStrings
  import opened Messages
  import opened Metadata
  import opened Scale

  // --- messages

  function EncodeKind(k: MessageType): Option<Bytes> {
    match k
    case RawData => Some([0])
    case File => Some([1])
  }

  function DecodeKind(b: Bytes): Decoded<MessageType> {
    if b == [] then Fail
    else if b[0] == 0 then Done(RawData, b[1..])
    else if b[0] == 1 then Done(File, b[1..])
    else Fail
  }

  const KindCodec: Codec<MessageType> := Codec(k => EncodeKind(k), b => DecodeKind(b))

  const BytesCodec: Codec<Bytes> := Vector(ByteCodec)

  const EntryCodec: Codec<MessageEntry> :=
    Mapped(Pair(BytesCodec, Pair(BytesCodec, KindCodec)),
           (v: (Bytes, (Bytes, MessageType))) => MessageEntry(v.0, v.1.0, v.1.1),
           (e: MessageEntry) => (e.key, (e.value, e.kind)))

  const MessageCodec: Codec<Message> :=
    Mapped(Vector(EntryCodec), (es: seq<MessageEntry>) => Message(es), (m: Message) => m.entries)

  lemma KindExact()
    ensures Exact(KindCodec)
  {
    forall k: MessageType, b: Bytes, rest: Bytes
      ensures Inverse(KindCodec, k, b, rest)
    {
      if b != [] {
        assert b == [b[0]] + b[1..];
      }
    }
  }

  /** Decoding accepts exactly the encodings of messages, each followed by any rest. */
  lemma MessageExact()
    ensures Exact(MessageCodec)
  {
    ArraysExact();
    KindExact();
    VectorExact(ByteCodec);
    PairExact(BytesCodec, KindCodec);
    PairExact(BytesCodec, Pair(BytesCodec, KindCodec));
    MappedExact(Pair(BytesCodec, Pair(BytesCodec, KindCodec)),
                (v: (Bytes, (Bytes, MessageType))) => MessageEntry(v.0, v.1.0, v.1.1),
                (e: MessageEntry) => (e.key, (e.value, e.kind)));
    VectorExact(EntryCodec);
    MappedExact(Vector(EntryCodec), (es: seq<MessageEntry>) => Message(es), (m: Message) => m.entries);
  }

  /** A byte string after its compact length. */
  function Prefixed(x: Bytes): Option<Bytes> {
    Append(EncodeLength(|x|), Some(x))
  }

  /** An entry is its key, its value, each after its length, and one byte for its kind. */
  lemma EntryLayout(e: MessageEntry)
    ensures EntryCodec.enc(e) ==
            Append(Append(Prefixed(e.key), Prefixed(e.value)), Some([if e.kind == File then 1 else 0]))
  {
    BytesAsTheyAre(e.key);
    BytesAsTheyAre(e.value);
    AppendAssociates(Prefixed(e.key), Prefixed(e.value), EncodeKind(e.kind));
  }

  lemma EntryEncodes(e: MessageEntry)
    ensures EntryCodec.enc(e).Some? <==> |e.key| < COMPACT_LIMIT && |e.value| < COMPACT_LIMIT
  {
    EntryLayout(e);
  }

  lemma MessageForm(m: Message)
    ensures MessageCodec.enc(m) == Append(EncodeLength(|m.entries|), EncodeItems(EntryCodec, m.entries))
  {
  }

  ghost predicate EntryFits(e: MessageEntry) {
    |e.key| < COMPACT_LIMIT && |e.value| < COMPACT_LIMIT
  }

  lemma {:induction false} EntriesEncode(es: seq<MessageEntry>)
    ensures EncodeItems(EntryCodec, es).Some? <==> forall i :: 0 <= i < |es| ==> EntryFits(es[i])
  {
    if es == [] {
    } else {
      EntryEncodes(es[0]);
      EntriesEncode(es[1..]);
      assert forall i :: 1 <= i < |es| ==> es[i] == es[1..][i - 1];
    }
  }

  /** A message can be encoded exactly when none of its vectors has 2^32 or more elements. */
  lemma MessageEncodes(m: Message)
    ensures MessageCodec.enc(m).Some? <==>
            |m.entries| < COMPACT_LIMIT && forall i :: 0 <= i < |m.entries| ==> EntryFits(m.entries[i])
    ensures MessageCodec.enc(m).Some? ==> MessageCodec.enc(m).value != []
  {
    MessageForm(m);
    EntriesEncode(m.entries);
  }

  // --- metadata

  const ChannelCodec: Codec<Channel> :=
    Mapped(Pair(BytesCodec, Vector(BytesCodec)),
           (v: (Bytes, seq<Bytes>)) => Channel(v.0, v.1),
           (c: Channel) => (c.nonce, c.parties))

  const MetadataCodec: Codec<MessageMetadata> :=
    Mapped(Pair(NonceCodec, Pair(KeyCodec, Pair(KeyCodec, Vector(ChannelCodec)))),
           (v: (Nonce, (Key, (Key, seq<Channel>)))) => MessageMetadata(v.0, v.1.0, v.1.1.0, v.1.1.1),
           (m: MessageMetadata) => (m.nonce, (m.broker, (m.hash, m.channels))))

  /** Decoding accepts exactly the encodings of metadata, each followed by any rest. */
  lemma MetadataExact()
    ensures Exact(MetadataCodec)
  {
    ArraysExact();
    VectorExact(ByteCodec);
    VectorExact(BytesCodec);
    PairExact(BytesCodec, Vector(BytesCodec));
    MappedExact(Pair(BytesCodec, Vector(BytesCodec)),
                (v: (Bytes, seq<Bytes>)) => Channel(v.0, v.1),
                (c: Channel) => (c.nonce, c.parties));
    VectorExact(ChannelCodec);
    PairExact(KeyCodec, Vector(ChannelCodec));
    PairExact(KeyCodec, Pair(KeyCodec, Vector(ChannelCodec)));
    PairExact(NonceCodec, Pair(KeyCodec, Pair(KeyCodec, Vector(ChannelCodec))));
    MappedExact(Pair(NonceCodec, Pair(KeyCodec, Pair(KeyCodec, Vector(ChannelCodec)))),
                (v: (Nonce, (Key, (Key, seq<Channel>)))) => MessageMetadata(v.0, v.1.0, v.1.1.0, v.1.1.1),
                (m: MessageMetadata) => (m.nonce, (m.broker, (m.hash, m.channels))));
  }

  /** A channel is its nonce and then its vector of parties. */
  lemma ChannelLayout(c: Channel)
    ensures ChannelCodec.enc(c) == Append(Prefixed(c.nonce), Vector(BytesCodec).enc(c.parties))
  {
    BytesAsTheyAre(c.nonce);
  }

  /** Metadata is its 88-byte header, nonce then broker then hash, and the vector of its channels. */
  lemma MetadataLayout(m: MessageMetadata)
    ensures var channels := Vector(ChannelCodec).enc(m.channels);
            MetadataCodec.enc(m) ==
            if channels.Some? then Some(m.nonce + m.broker + m.hash + channels.value) else None
    ensures |m.nonce| == 24 && |m.broker| == 32 && |m.hash| == 32
  {
    var channels := Vector(ChannelCodec).enc(m.channels);
    assert MetadataCodec.enc(m) == Append(Some(m.nonce), Append(Some(m.broker), Append(Some(m.hash), channels)));
    if channels.Some? {
      assert m.nonce + (m.broker + (m.hash + channels.value)) == m.nonce + m.broker + m.hash + channels.value;
    }
  }
}
