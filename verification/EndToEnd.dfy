/** From a sender's draft through the pallet's log to a reader, over whole runs. */
module EndToEnd {
  import opened Wrappers
  import opened ByteStrings
  import opened Crypto
  import opened Messages
  import opened Metadata
  import opened Scale
  import opened Wire
  import opened Pallet

  /** Honest metadata is a square table, for any list of recipients, empty and repeating ones included. */
  lemma HonestIsSquare(s: Suite, d: Draft, m: MessageMetadata)
    requires s.Lawful() && Honest(s, d, m)
    ensures SquareTable(m)
  {
    forall i | 0 <= i < |m.channels|
      ensures GoodChannel(m.channels[i], |m.channels|)
    {
      var c := m.channels[i];
      assert IsRow(s, d, i, c);
      assert s.SealOpens(d.ChannelKey(s, i), d.publicNonce, d.secretNonce);
      forall j | 0 <= j < |c.parties|
        ensures |c.parties[j]| > 0
      {
        assert s.SealOpens(d.ChannelKey(s, i), d.secretNonce, d.Parties()[j]);
      }
    }
  }

  // --- what the pallet lets through

  /**
   * Metadata that the pallet accepts and on which a reader panics: its only
   * channel opens to an empty string in place of a nonce.
   */
  lemma AcceptedMetadataCanPanic()
    ensures var s := Toy();
            var key: Key := Zeros(KEY_SIZE);
            var m := MessageMetadata(Zeros(NONCE_SIZE), key, key, [Channel(key[..TAG_SIZE], [key])]);
            s.Lawful() && SquareTable(m) && Decrypted(s, m, key) == Err(NotANonce([]))
  {
    ToyIsLawful();
    var s := Toy();
    var key: Key := Zeros(KEY_SIZE);
    var m := MessageMetadata(Zeros(NONCE_SIZE), key, key, [Channel(key[..TAG_SIZE], [key])]);
    assert Mix(key, key) == key;
    assert key[..TAG_SIZE][..0] == [];
    assert s.Open(s.Shared(key, key), m.nonce, m.channels[0].nonce) == Some([]);
    assert StopsScan(s, m, key, 0);
    DecryptPanicsExactly(s, m, key, []);
  }

  ghost predicate AllGood(channels: seq<Channel>, n: nat) {
    forall c :: c in channels ==> GoodChannel(c, n)
  }

  /** A table keeps its shape when rows around row `i` are exchanged for others of that shape. */
  lemma ReplacedIsSquare(m: MessageMetadata, i: nat, before: seq<Channel>, after: seq<Channel>)
    requires SquareTable(m) && i < |m.channels| == |before| + 1 + |after|
    requires AllGood(before + after, |m.channels|)
    ensures SquareTable(KeepingRow(m, i, before, after))
  {
    var t := KeepingRow(m, i, before, after);
    forall j | 0 <= j < |t.channels|
      ensures GoodChannel(t.channels[j], |m.channels|)
    {
      if j != |before| {
        assert t.channels[j] in before + after;
      }
    }
  }

  /**
   * In the honest table all rows but one are exchanged for any rows that do not
   * open for its reader: the hash stays, and the reader still sees its channel
   * and confirms the original.  The pallet accepts the table if the exchanged
   * rows have the number and shape of the old ones.
   */
  lemma ReplacedRowsGoUnnoticed(s: Suite, d: Draft, m: MessageMetadata, receiverSk: Key, i: nat,
                                before: seq<Channel>, after: seq<Channel>)
    requires s.Lawful() && Honest(s, d, m)
    requires i < |m.channels| && d.Parties()[i] == s.Public(receiverSk)
    requires forall c :: c in before + after ==> !NonceOpens(s, m, receiverSk, c)
    ensures var t := KeepingRow(m, i, before, after);
            var view := m.(channels := [Revealed(d)]);
            && t.hash == m.hash
            && Decrypted(s, t, receiverSk) == Ok(view)
            && Confirms(s, view, d.origin, d.message)
            && (|t.channels| == |m.channels| && AllGood(before + after, |m.channels|) ==> SquareTable(t))
  {
    KeptRowIsRead(s, d, m, receiverSk, i, before, after);
    HonestIsSquare(s, d, m);
    if |before| + 1 + |after| == |m.channels| && AllGood(before + after, |m.channels|) {
      ReplacedIsSquare(m, i, before, after);
    }
  }

  /** A row too short to carry a tag. */
  function Junk(n: nat): Channel {
    Channel([0], seq(n, _ => [0]))
  }

  function JunkRows(n: nat, count: nat): seq<Channel> {
    seq(count, _ => Junk(n))
  }

  /** The table with every row but row `i` exchanged for junk of the shape of a row. */
  function OnlyRow(m: MessageMetadata, i: nat): MessageMetadata
    requires i < |m.channels|
  {
    var n := |m.channels|;
    KeepingRow(m, i, JunkRows(n, i), JunkRows(n, n - 1 - i))
  }

  /** A row of two or more differs from junk, under any lawful suite. */
  lemma OnlyRowDiffers(s: Suite, d: Draft, m: MessageMetadata, i: nat)
    requires s.Lawful() && Honest(s, d, m) && i < |m.channels| && |m.channels| > 1
    ensures OnlyRow(m, i) != m
  {
    var k := if i == 0 then 1 else 0;
    assert OnlyRow(m, i).channels[k] == Junk(|m.channels|);
    assert IsRow(s, d, k, m.channels[k]);
    assert s.SealOpens(d.ChannelKey(s, k), d.publicNonce, d.secretNonce);
  }

  lemma JunkOnly(n: nat, i: nat)
    requires i < n
    ensures var others := JunkRows(n, i) + JunkRows(n, n - 1 - i);
            AllGood(others, n) && forall c :: c in others ==> c == Junk(n)
  {
    assert GoodChannel(Junk(n), n);
  }

  lemma OnlyRowIsSquare(m: MessageMetadata, i: nat)
    requires SquareTable(m) && i < |m.channels|
    ensures SquareTable(OnlyRow(m, i))
  {
    var n := |m.channels|;
    JunkOnly(n, i);
    ReplacedIsSquare(m, i, JunkRows(n, i), JunkRows(n, n - 1 - i));
  }

  lemma OnlyRowIsRead(s: Suite, d: Draft, m: MessageMetadata, receiverSk: Key, i: nat)
    requires s.Lawful() && Honest(s, d, m)
    requires i < |m.channels| && d.Parties()[i] == s.Public(receiverSk)
    requires !NonceOpens(s, m, receiverSk, Junk(|m.channels|))
    ensures var view := m.(channels := [Revealed(d)]);
            Decrypted(s, OnlyRow(m, i), receiverSk) == Ok(view) && Confirms(s, view, d.origin, d.message)
  {
    var n := |m.channels|;
    JunkOnly(n, i);
    KeptRowIsRead(s, d, m, receiverSk, i, JunkRows(n, i), JunkRows(n, n - 1 - i));
  }

  /**
   * Whenever junk does not open for the reader, all other rows can be junk: with
   * several parties the table then differs, and it is still square and confirmed
   * under the same hash.
   */
  lemma JunkRowsGoUnnoticed(s: Suite, d: Draft, m: MessageMetadata, receiverSk: Key, i: nat)
    requires s.Lawful() && Honest(s, d, m)
    requires i < |m.channels| && d.Parties()[i] == s.Public(receiverSk)
    requires !NonceOpens(s, m, receiverSk, Junk(|m.channels|))
    ensures var t, view := OnlyRow(m, i), m.(channels := [Revealed(d)]);
            && t.hash == m.hash && SquareTable(t) && (|m.channels| > 1 ==> t != m)
            && Decrypted(s, t, receiverSk) == Ok(view)
            && Confirms(s, view, d.origin, d.message)
  {
    OnlyRowIsRead(s, d, m, receiverSk, i);
    HonestIsSquare(s, d, m);
    OnlyRowIsSquare(m, i);
    if |m.channels| > 1 {
      OnlyRowDiffers(s, d, m, i);
    }
  }

  /** It does happen: under the toy suite junk opens for nobody. */
  lemma ToyJunkStaysShut(m: MessageMetadata, receiverSk: Key, n: nat)
    ensures Toy().Lawful() && !NonceOpens(Toy(), m, receiverSk, Junk(n))
  {
    ToyIsLawful();
  }

  /** For every draft with recipients there are two accepted tables under one hash, both confirmed by the reader. */
  lemma TablesShareAHash(d: Draft, receiverSk: Key, i: nat) returns (m: MessageMetadata, t: MessageMetadata)
    requires d.recipients != [] && i < |d.Parties()| && d.Parties()[i] == Toy().Public(receiverSk)
    ensures Honest(Toy(), d, m) && t != m && t.hash == m.hash && SquareTable(m) && SquareTable(t)
    ensures Decrypted(Toy(), t, receiverSk) == Ok(m.(channels := [Revealed(d)]))
    ensures Confirms(Toy(), m.(channels := [Revealed(d)]), d.origin, d.message)
  {
    m := ToyHonest(d);
    t := OnlyRow(m, i);
    ToyJunkStaysShut(m, receiverSk, |m.channels|);
    HonestIsSquare(Toy(), d, m);
    JunkRowsGoUnnoticed(Toy(), d, m, receiverSk, i);
  }

  // --- from sender to reader

  /**
   * A signed call that carries honest metadata and any message bytes is refused
   * only when the counter is full; encoded messages are never empty.
   */
  lemma ProducerMeetsValidator<A>(s: Suite, d: Draft, m: MessageMetadata, message: Bytes, account: A, st: State)
    requires s.Lawful() && Honest(s, d, m) && message != []
    ensures var call := SendMessage(Signed(account), m, message);
            && Admissible(call)
            && Verdict(st, call) == if st.counter >= U128_MAX then Err(MessageCounterOverflow) else Ok(())
  {
    HonestIsSquare(s, d, m);
  }

  /**
   * What a reader does with an event: open its metadata, take the secret nonce
   * from the first channel, fetch the bytes stored under the event's key, decode
   * them and decrypt with the public key of the other end.
   */
  function FetchAndOpen(s: Suite, st: State, e: Event, peerPk: Key, readerSk: Key): Option<Message> {
    match Decrypted(s, e.metadata, readerSk)
    case Err(_) => None
    case Ok(view) =>
      if view.channels == [] || |view.channels[0].nonce| != NONCE_SIZE || e.key !in st.offchain then None
      else
        match MessageCodec.dec(st.offchain[e.key])
        case Fail => None
        case Done(sealed, _) =>
          match DecryptMessage(s, sealed, view.channels[0].nonce, peerPk, readerSk)
          case Err(_) => None
          case Ok(message) => Some(message)
  }

  /** The bytes a sender submits: the draft's message, encrypted under its secret nonce and encoded. */
  function Payload(s: Suite, d: Draft, senderSk: Key, receiverPk: Key): Option<Bytes> {
    match EncryptMessage(s, d.message, d.secretNonce, receiverPk, senderSk)
    case Err(_) => None
    case Ok(sealed) => MessageCodec.enc(sealed)
  }

  /**
   * A sender submits given bytes exactly when they encode the draft's message with
   * every field sealed, under the secret nonce, with the key shared by the two ends.
   */
  lemma PayloadExactly(s: Suite, d: Draft, senderSk: Key, receiverPk: Key, payload: Bytes)
    ensures Payload(s, d, senderSk, receiverPk) == Some(payload) <==>
            exists c :: SealsTo(s, s.Shared(receiverPk, senderSk), d.secretNonce, d.message, c) &&
                        MessageCodec.enc(c) == Some(payload)
  {
    forall c
      ensures EncryptMessage(s, d.message, d.secretNonce, receiverPk, senderSk) == Ok(c) <==>
              SealsTo(s, s.Shared(receiverPk, senderSk), d.secretNonce, d.message, c)
    {
      EncryptMessageExactly(s, d.message, d.secretNonce, receiverPk, senderSk, c);
    }
  }

  /**
   * A reader gets a message exactly when it can read the metadata, its first
   * channel holds a nonce, the bytes under the event's key start with an encoded
   * message, and opening the fields of that one under the nonce, with the key
   * shared with the other end, gives the message.
   */
  lemma FetchAndOpenExactly(s: Suite, st: State, e: Event, peerPk: Key, readerSk: Key, message: Message)
    ensures FetchAndOpen(s, st, e, peerPk, readerSk) == Some(message) <==>
            && Decrypted(s, e.metadata, readerSk).Ok?
            && var channels := Decrypted(s, e.metadata, readerSk).value.channels;
            && channels != [] && |channels[0].nonce| == NONCE_SIZE
            && e.key in st.offchain
            && MessageCodec.dec(st.offchain[e.key]).Done?
            && OpensTo(s, s.Shared(peerPk, readerSk), channels[0].nonce, MessageCodec.dec(st.offchain[e.key]).value, message)
  {
    var read := Decrypted(s, e.metadata, readerSk);
    if read.Ok? && read.value.channels != [] && |read.value.channels[0].nonce| == NONCE_SIZE && e.key in st.offchain {
      match MessageCodec.dec(st.offchain[e.key])
      case Fail =>
      case Done(sealed, _) =>
        DecryptMessageOpens(s, sealed, read.value.channels[0].nonce, peerPk, readerSk, message);
    }
  }

  /**
   * An event and the payload stored under its key are all that a reader needs:
   * the receiver opens it with the sender's public key, and the sender with the
   * receiver's, each provided that its own keys are separated.
   */
  lemma StoredMessageOpens(s: Suite, d: Draft, e: Event, st: State, senderSk: Key, receiverSk: Key)
    requires s.Lawful() && Honest(s, d, e.metadata)
    requires d.sender == s.Public(senderSk)
    requires s.Public(receiverSk) in d.Parties()
    requires Payload(s, d, senderSk, s.Public(receiverSk)).Some?
    requires e.key in st.offchain && st.offchain[e.key] == Payload(s, d, senderSk, s.Public(receiverSk)).value
    ensures Separated(s, d, receiverSk) ==> FetchAndOpen(s, st, e, d.sender, receiverSk) == Some(d.message)
    ensures Separated(s, d, senderSk) ==>
              FetchAndOpen(s, st, e, s.Public(receiverSk), senderSk) == Some(d.message)
  {
    var sealed := EncryptMessage(s, d.message, d.secretNonce, s.Public(receiverSk), senderSk).value;
    MessageExact();
    var stored := st.offchain[e.key];
    ReadsBack(MessageCodec, sealed, stored, []);
    assert stored + [] == stored;
    MessageRoundTrip(s, d.message, d.secretNonce, senderSk, receiverSk, sealed);
    if Separated(s, d, receiverSk) {
      FirstChannel(s, d, e.metadata, receiverSk);
    }
    if Separated(s, d, senderSk) {
      FirstChannel(s, d, e.metadata, senderSk);
    }
  }

  /** The call by which `account` sends the draft's message. */
  ghost predicate SendsDraft<A>(s: Suite, d: Draft, senderSk: Key, receiverPk: Key, call: Call<A>) {
    && call.origin.Signed?
    && Honest(s, d, call.metadata)
    && Payload(s, d, senderSk, receiverPk) == Some(call.message)
  }

  /**
   * In any run, whatever is called before and after it by anyone, a call that
   * sends a draft is logged exactly when the counter is not yet full.  Its event
   * then carries the number of admissible calls before it, and at the end of the
   * run still leads receiver and sender to exactly the message that was drafted,
   * and the receiver confirms that message and its origin by the root hash.
   */
  lemma MessageArrives<A>(s: Suite, encode: A -> Bytes, d: Draft, senderSk: Key, receiverSk: Key,
                          before: seq<Call<A>>, call: Call<A>, after: seq<Call<A>>)
    requires s.Lawful()
    requires d.sender == s.Public(senderSk)
    requires s.Public(receiverSk) in d.Parties()
    requires SendsDraft(s, d, senderSk, s.Public(receiverSk), call)
    ensures var st := Run(encode, Genesis, before + [call] + after);
            var i := |Admitted(before)|;
            && (i < U128_MAX <==> Verdict(Run(encode, Genesis, before), call).Ok?)
            && (i < U128_MAX ==>
                  && i < |st.events|
                  && st.events[i] == MessageSent(DerivedKey(encode, call.origin.account, i), call.metadata)
                  && (Separated(s, d, receiverSk) ==>
                        && Decrypted(s, call.metadata, receiverSk).Ok?
                        && FetchAndOpen(s, st, st.events[i], d.sender, receiverSk) == Some(d.message)
                        && Confirms(s, Decrypted(s, call.metadata, receiverSk).value, d.origin, d.message))
                  && (Separated(s, d, senderSk) ==>
                        FetchAndOpen(s, st, st.events[i], s.Public(receiverSk), senderSk) == Some(d.message)))
            && (i >= U128_MAX ==> st == Run(encode, Genesis, before))
  {
    var sealed := EncryptMessage(s, d.message, d.secretNonce, s.Public(receiverSk), senderSk).value;
    MessageEncodes(sealed);
    HonestIsSquare(s, d, call.metadata);
    CallIsLogged(encode, before, call, after);
    var st := Run(encode, Genesis, before + [call] + after);
    var i := |Admitted(before)|;
    if i < U128_MAX {
      StoredMessageOpens(s, d, st.events[i], st, senderSk, receiverSk);
      if Separated(s, d, receiverSk) {
        EveryPartyConfirms(s, d, call.metadata, receiverSk);
      }
    }
  }
}
