/** The functions exported to JavaScript: each parses its arguments, calls the core and prints the result. */
module JsApi {
  import opened Wrappers
  import opened ByteStrings
  import opened Crypto
  import opened Cypher
  import opened Messages
  import opened Metadata
  import opened JsTree

  datatype MessageAction = Encrypt | Decrypt

  /** A nonce from bytes of any length; the wrong length is a panic, not an error. */
  function NonceOrPanic(data: Bytes): Result<Nonce, JsFault> {
    if |data| == NONCE_SIZE then Ok(data) else Err(Panicked)
  }

  /** The arguments of `NewEncryptedMetadata`, checked in the order in which it reads them. */
  function ParseDraft(origin: Bytes, publicNonce: Bytes, sender: Bytes, recipients: seq<JsValue>, message: JsEntries,
                      secretNonce: Nonce, brokerSk: Key): Result<Draft, JsFault>
  {
    var reps :- Collect(recipients, ToKey);
    var originPk :- ToKey(Uint8Array(origin));
    var nonce :- NonceOrPanic(publicNonce);
    var senderPk :- ToKey(Uint8Array(sender));
    var m :- ParseMessage(message);
    Ok(Draft(originPk, nonce, senderPk, reps, m, secretNonce, brokerSk))
  }

  /**
   * The arguments give a draft exactly when they are its fields: keys and nonce
   * of the right sizes, an array of the recipients' keys, and a map that includes
   * the printed message, which is raw data.
   */
  lemma ParseDraftExactly(origin: Bytes, publicNonce: Bytes, sender: Bytes, recipients: seq<JsValue>,
                          message: JsEntries, secretNonce: Nonce, brokerSk: Key, d: Draft)
    ensures ParseDraft(origin, publicNonce, sender, recipients, message, secretNonce, brokerSk) == Ok(d) <==>
            && d.origin == origin && d.publicNonce == publicNonce && d.sender == sender
            && |d.recipients| == |recipients|
            && (forall i :: 0 <= i < |recipients| ==> recipients[i] == Uint8Array(d.recipients[i]))
            && AllRaw(d.message) && Includes(JsMap(message), JsMap(PrintMessage(d.message)))
            && d.secretNonce == secretNonce && d.brokerSk == brokerSk
  {
    CollectOk(recipients, ToKey, d.recipients);
    MessageParsesExactly(message, d.message);
  }

  lemma MessageNeverPanics(message: JsEntries)
    ensures ParseMessage(message) != Err(Panicked)
  {
    var es := Get(message, "entries");
    if es.JsArray? && Collect(es.items, ParseEntry).Err? {
      CollectErr(es.items, ParseEntry);
    }
  }

  /** Building metadata panics exactly when recipients and origin are fine and the nonce has the wrong size. */
  lemma ParseDraftPanics(origin: Bytes, publicNonce: Bytes, sender: Bytes, recipients: seq<JsValue>,
                         message: JsEntries, secretNonce: Nonce, brokerSk: Key)
    ensures ParseDraft(origin, publicNonce, sender, recipients, message, secretNonce, brokerSk) == Err(Panicked) <==>
            && (forall i :: 0 <= i < |recipients| ==> recipients[i].Uint8Array? && |recipients[i].data| == KEY_SIZE)
            && |origin| == KEY_SIZE && |publicNonce| != NONCE_SIZE
  {
    match Collect(recipients, ToKey)
    case Ok(reps) =>
      CollectOk(recipients, ToKey, reps);
      assert forall i :: 0 <= i < |recipients| ==> ToKey(recipients[i]) == Ok(reps[i]);
      MessageNeverPanics(message);
    case Err(f) =>
      CollectErr(recipients, ToKey);
      var i :| 0 <= i < |recipients| && ToKey(recipients[i]) == Err(f);
  }

  lemma KeyRefused(v: JsValue, f: JsFault)
    ensures ToKey(v) == Err(f) <==> SizeFault(v, 32) == Some(f)
  {
  }

  /**
   * Arguments are refused in reading order: for the first recipient that is no
   * key, then the origin, the public nonce (with a panic), the sender and at last
   * the message.
   */
  lemma ParseDraftRefused(origin: Bytes, publicNonce: Bytes, sender: Bytes, recipients: seq<JsValue>,
                          message: JsEntries, secretNonce: Nonce, brokerSk: Key, f: JsFault)
    ensures ParseDraft(origin, publicNonce, sender, recipients, message, secretNonce, brokerSk) == Err(f) <==>
            if exists i :: FirstFails(recipients, ToKey, i) then
              exists i :: FirstFails(recipients, ToKey, i) && SizeFault(recipients[i], 32) == Some(f)
            else if |origin| != 32 then f == WrongSize(32)
            else if |publicNonce| != 24 then f == Panicked
            else if |sender| != 32 then f == WrongSize(32)
            else ParseMessage(message) == Err(f)
  {
    CollectFails(recipients, ToKey, f);
    forall i | 0 <= i < |recipients|
      ensures ToKey(recipients[i]) == Err(f) <==> SizeFault(recipients[i], 32) == Some(f)
    {
      KeyRefused(recipients[i], f);
    }
    var reps := Collect(recipients, ToKey);
    if reps.Err? {
      CollectFails(recipients, ToKey, reps.error);
    } else if i :| FirstFails(recipients, ToKey, i) {
      CollectOk(recipients, ToKey, reps.value);
    }
  }

  /** The printed metadata of the drafted message, with the secret nonce beside it. */
  method NewEncryptedMetadata(s: Suite, origin: Bytes, publicNonce: Bytes, sender: Bytes, recipients: seq<JsValue>,
                              message: JsEntries, secretNonce: Nonce, brokerSk: Key)
    returns (r: Result<JsEntries, JsFault>)
    ensures match ParseDraft(origin, publicNonce, sender, recipients, message, secretNonce, brokerSk)
            case Err(f) => r == Err(f)
            case Ok(d) =>
              match r
              case Ok(js) =>
                exists m :: Honest(s, d, m) && js == PrintMetadata(m) + map["secret_nonce" := Uint8Array(secretNonce)]
              case Err(f) =>
                exists i :: 0 <= i < |d.Parties()| && !RowSeals(s, d, i) &&
                            f == Raised(EncryptionFailed(d.Parties()[i])) &&
                            forall k :: 0 <= k < i ==> RowSeals(s, d, k)
  {
    var reps: seq<Key> := [];
    for i := 0 to |recipients|
      invariant Collect(recipients[..i], ToKey) == Ok(reps)
    {
      CollectStep(recipients, i, ToKey);
      var pk :- ToKey(recipients[i]);
      reps := reps + [pk];
    }
    assert recipients[..|recipients|] == recipients;

    var originPk :- ToKey(Uint8Array(origin));
    var nonce :- NonceOrPanic(publicNonce);
    var senderPk :- ToKey(Uint8Array(sender));
    var m :- MessageFromJs(message);
    var d := Draft(originPk, nonce, senderPk, reps, m, secretNonce, brokerSk);
    var made := NewEncrypted(s, d);
    if made.Err? {
      return Err(Raised(made.error));
    }
    var (meta, drawn) := made.value;
    var js := MetadataToJsMap(meta);
    js := js["secret_nonce" := Uint8Array(drawn)];
    assert js == PrintMetadata(meta) + map["secret_nonce" := Uint8Array(secretNonce)];
    r := Ok(js);
  }

  function DecryptMetadata(s: Suite, metadata: JsEntries, secretKey: Bytes): Result<JsEntries, JsFault> {
    var meta :- ParseMetadata(metadata);
    var sk :- ToKey(Uint8Array(secretKey));
    match Decrypted(s, meta, sk)
    case Ok(view) => Ok(PrintMetadata(view))
    case Err(Failed(e)) => Err(Raised(e))
    case Err(NotANonce(_)) => Err(Panicked)
  }

  lemma ChannelNeverPanics(v: JsValue)
    ensures ParseChannel(v) != Err(Panicked)
  {
    if v.JsMap? {
      var parts := Get(v.entries, "parties");
      if parts.JsArray? && Collect(parts.items, AsBytes).Err? {
        CollectErr(parts.items, AsBytes);
      }
    }
  }

  lemma MetadataNeverPanics(metadata: JsEntries)
    ensures ParseMetadata(metadata) != Err(Panicked)
  {
    var chans := Get(metadata, "channels");
    if chans.JsArray? && Collect(chans.items, ParseChannel).Err? {
      CollectErr(chans.items, ParseChannel);
      var i :| 0 <= i < |chans.items| && ParseChannel(chans.items[i]) == Err(Collect(chans.items, ParseChannel).error);
      ChannelNeverPanics(chans.items[i]);
    }
  }

  /**
   * Decrypting any map gives a result exactly when the map includes printed
   * metadata, the key has the right size and the metadata can be read by it; it
   * panics exactly when reading the metadata does.
   */
  lemma DecryptMetadataExactly(s: Suite, metadata: JsEntries, secretKey: Bytes, out: JsEntries)
    ensures DecryptMetadata(s, metadata, secretKey) == Ok(out) <==>
            |secretKey| == KEY_SIZE &&
            exists m :: Includes(JsMap(metadata), JsMap(PrintMetadata(m))) &&
                        Decrypted(s, m, secretKey).Ok? && out == PrintMetadata(Decrypted(s, m, secretKey).value)
    ensures DecryptMetadata(s, metadata, secretKey) == Err(Panicked) <==>
            |secretKey| == KEY_SIZE &&
            exists m :: Includes(JsMap(metadata), JsMap(PrintMetadata(m))) &&
                        Decrypted(s, m, secretKey).Err? && Decrypted(s, m, secretKey).error.NotANonce?
  {
    MetadataNeverPanics(metadata);
    forall m
      ensures ParseMetadata(metadata) == Ok(m) <==> Includes(JsMap(metadata), JsMap(PrintMetadata(m)))
    {
      MetadataParsesExactly(metadata, m);
    }
    var parsed := ParseMetadata(metadata);
    assert parsed.Ok? ==> Includes(JsMap(metadata), JsMap(PrintMetadata(parsed.value)));
  }

  /** A map is refused for what it holds first, then for the key, and only then for what the key opens. */
  lemma DecryptMetadataRefused(s: Suite, metadata: JsEntries, secretKey: Bytes, f: JsFault)
    ensures DecryptMetadata(s, metadata, secretKey) == Err(f) <==>
            if ParseMetadata(metadata).Err? then ParseMetadata(metadata) == Err(f)
            else if |secretKey| != 32 then f == WrongSize(32)
            else
              match Decrypted(s, ParseMetadata(metadata).value, secretKey)
              case Ok(_) => false
              case Err(Failed(e)) => f == Raised(e)
              case Err(NotANonce(_)) => f == Panicked
  {
  }

  /**
   * What a sender gets from `NewEncryptedMetadata`, a reader can pass on as it is:
   * decrypting it gives the printed form of exactly the reader's own channels.
   */
  lemma ReaderSeesExactly(s: Suite, d: Draft, m: MessageMetadata, receiverSk: Key)
    requires s.Lawful() && Honest(s, d, m) && Separated(s, d, receiverSk)
    ensures var js := PrintMetadata(m) + map["secret_nonce" := Uint8Array(d.secretNonce)];
            var own := multiset(d.Parties())[s.Public(receiverSk)];
            DecryptMetadata(s, js, receiverSk) ==
            Ok(PrintMetadata(m.(channels := seq(own, _ => Revealed(d)))))
  {
    MetadataRoundTrip(m, map["secret_nonce" := Uint8Array(d.secretNonce)]);
    OpeningExactWhenSeparated(s, d, m, receiverSk);
  }

  /** The cipher operation that an action stands for. */
  function Act(s: Suite, m: Message, nonce: Nonce, pk: Key, sk: Key, action: MessageAction): Result<Message, CypherError> {
    match action
    case Encrypt => EncryptMessage(s, m, nonce, pk, sk)
    case Decrypt => DecryptMessage(s, m, nonce, pk, sk)
  }

  function OnMessage(s: Suite, message: JsEntries, nonce: Bytes, pk: Bytes, sk: Bytes, action: MessageAction)
    : Result<JsEntries, JsFault>
  {
    var m :- ParseMessage(message);
    var n :- NonceOrPanic(nonce);
    var publicKey :- ToKey(Uint8Array(pk));
    var secretKey :- ToKey(Uint8Array(sk));
    match Act(s, m, n, publicKey, secretKey, action)
    case Ok(result) => Ok(PrintMessage(result))
    case Err(e) => Err(Raised(e))
  }

  /**
   * Encrypting or decrypting any map gives a result exactly when the map includes
   * a printed raw message, nonce and keys have the right sizes and the operation
   * succeeds on that message; it panics exactly when the map parses and the nonce
   * has the wrong size, whatever the keys.
   */
  lemma OnMessageExactly(s: Suite, message: JsEntries, nonce: Bytes, pk: Bytes, sk: Bytes, action: MessageAction,
                         out: JsEntries)
    ensures OnMessage(s, message, nonce, pk, sk, action) == Ok(out) <==>
            |nonce| == NONCE_SIZE && |pk| == KEY_SIZE && |sk| == KEY_SIZE &&
            exists m :: AllRaw(m) && Includes(JsMap(message), JsMap(PrintMessage(m))) &&
                        Act(s, m, nonce, pk, sk, action).Ok? && out == PrintMessage(Act(s, m, nonce, pk, sk, action).value)
    ensures OnMessage(s, message, nonce, pk, sk, action) == Err(Panicked) <==>
            |nonce| != NONCE_SIZE && exists m :: AllRaw(m) && Includes(JsMap(message), JsMap(PrintMessage(m)))
  {
    MessageNeverPanics(message);
    forall m
      ensures ParseMessage(message) == Ok(m) <==> AllRaw(m) && Includes(JsMap(message), JsMap(PrintMessage(m)))
    {
      MessageParsesExactly(message, m);
    }
    var parsed := ParseMessage(message);
    assert parsed.Ok? ==> AllRaw(parsed.value) && Includes(JsMap(message), JsMap(PrintMessage(parsed.value)));
  }

  /**
   * Encrypting a map gives another exactly when the map holds a raw message, all
   * sizes are right, and the result is the printed form of that message with
   * every key and value sealed under the shared key.
   */
  lemma OnMessageEncrypts(s: Suite, message: JsEntries, nonce: Bytes, pk: Bytes, sk: Bytes, out: JsEntries)
    ensures OnMessage(s, message, nonce, pk, sk, Encrypt) == Ok(out) <==>
            |nonce| == 24 && |pk| == 32 && |sk| == 32 &&
            exists m, c :: AllRaw(m) && HoldsMessage(message, m) && SealsTo(s, s.Shared(pk, sk), nonce, m, c) &&
                           out == PrintMessage(c)
  {
    var parsed := ParseMessage(message);
    forall m
      ensures parsed == Ok(m) <==> AllRaw(m) && HoldsMessage(message, m)
    {
      MessageHeld(message, m);
    }
    if parsed.Ok? && |nonce| == 24 && |pk| == 32 && |sk| == 32 {
      forall c
        ensures EncryptMessage(s, parsed.value, nonce, pk, sk) == Ok(c) <==>
                SealsTo(s, s.Shared(pk, sk), nonce, parsed.value, c)
      {
        EncryptMessageExactly(s, parsed.value, nonce, pk, sk, c);
      }
    }
  }

  /** Decrypting a map, likewise, with every key and value opened under the shared key. */
  lemma OnMessageDecrypts(s: Suite, message: JsEntries, nonce: Bytes, pk: Bytes, sk: Bytes, out: JsEntries)
    ensures OnMessage(s, message, nonce, pk, sk, Decrypt) == Ok(out) <==>
            |nonce| == 24 && |pk| == 32 && |sk| == 32 &&
            exists c, m :: AllRaw(c) && HoldsMessage(message, c) && OpensTo(s, s.Shared(pk, sk), nonce, c, m) &&
                           out == PrintMessage(m)
  {
    var parsed := ParseMessage(message);
    forall c
      ensures parsed == Ok(c) <==> AllRaw(c) && HoldsMessage(message, c)
    {
      MessageHeld(message, c);
    }
    if parsed.Ok? && |nonce| == 24 && |pk| == 32 && |sk| == 32 {
      forall m
        ensures DecryptMessage(s, parsed.value, nonce, pk, sk) == Ok(m) <==>
                OpensTo(s, s.Shared(pk, sk), nonce, parsed.value, m)
      {
        DecryptMessageOpens(s, parsed.value, nonce, pk, sk, m);
      }
    }
  }

  /**
   * A map is refused for what it holds first, then for the nonce (with a panic),
   * then for the keys, and at last, naming the other party, for a field that
   * cannot be sealed or opened.
   */
  lemma OnMessageRefused(s: Suite, message: JsEntries, nonce: Bytes, pk: Bytes, sk: Bytes, action: MessageAction,
                         f: JsFault)
    ensures OnMessage(s, message, nonce, pk, sk, action) == Err(f) <==>
            if ParseMessage(message).Err? then ParseMessage(message) == Err(f)
            else if |nonce| != 24 then f == Panicked
            else if |pk| != 32 || |sk| != 32 then f == WrongSize(32)
            else if action == Encrypt then
              && f == Raised(EncryptionFailed(pk))
              && forall c :: !SealsTo(s, s.Shared(pk, sk), nonce, ParseMessage(message).value, c)
            else
              && f == Raised(DecryptionFailed(pk))
              && forall m :: !OpensTo(s, s.Shared(pk, sk), nonce, ParseMessage(message).value, m)
  {
    var parsed := ParseMessage(message);
    if parsed.Ok? && |nonce| == 24 && |pk| == 32 && |sk| == 32 {
      var m := parsed.value;
      EncryptMessageFails(s, m, nonce, pk, sk);
      DecryptMessageExactly(s, m, nonce, pk, sk);
      forall c
        ensures EncryptMessage(s, m, nonce, pk, sk) == Ok(c) <==> SealsTo(s, s.Shared(pk, sk), nonce, m, c)
        ensures DecryptMessage(s, m, nonce, pk, sk) == Ok(c) <==> OpensTo(s, s.Shared(pk, sk), nonce, m, c)
      {
        EncryptMessageExactly(s, m, nonce, pk, sk, c);
        DecryptMessageOpens(s, m, nonce, pk, sk, c);
      }
    }
  }

  /**
   * Whatever map `a` encrypts for `b` becomes the printed form of the sealed
   * message, and either of them decrypts that to the printed form of the message
   * the map held.
   */
  lemma EncryptedMapDecrypts(s: Suite, js: JsEntries, m: Message, nonce: Nonce, a: Key, b: Key, sealed: JsEntries)
    requires s.Lawful()
    requires ParseMessage(js) == Ok(m)
    requires OnMessage(s, js, nonce, s.Public(b), a, Encrypt) == Ok(sealed)
    ensures exists c :: SealsTo(s, s.Shared(s.Public(b), a), nonce, m, c) && sealed == PrintMessage(c)
    ensures OnMessage(s, sealed, nonce, s.Public(a), b, Decrypt) == Ok(PrintMessage(m))
    ensures OnMessage(s, sealed, nonce, s.Public(b), a, Decrypt) == Ok(PrintMessage(m))
  {
    var c := EncryptMessage(s, m, nonce, s.Public(b), a).value;
    EncryptMessageExactly(s, m, nonce, s.Public(b), a, c);
    MessageRoundTrip(s, m, nonce, a, b, c);
    MessageParsesExactly(js, m);
    MessageParsesExactly(sealed, c);
    IncludesItself(JsMap(sealed));
  }

  /** The nonce of the first channel of printed metadata. */
  function FirstNonce(metadata: JsEntries): Result<Bytes, JsFault> {
    var chans :- AsArray(Get(metadata, "channels"));
    var first :- AsMap(if chans == [] then Undefined else chans[0]);
    AsBytes(Get(first, "nonce"))
  }

  lemma FirstNoncePrinted(m: MessageMetadata)
    requires m.channels != []
    ensures FirstNonce(PrintMetadata(m)) == Ok(m.channels[0].nonce)
  {
    assert PrintChannels(m.channels)[0] == PrintChannel(m.channels[0]);
  }

  /**
   * The whole exchange in JavaScript: the sender builds metadata and encrypts a
   * map for the receiver under the secret nonce; the receiver decrypts the
   * metadata, takes the nonce of its first channel, and with it decrypts the
   * encrypted map to the printed form of the message.
   */
  lemma ExchangeInJs(s: Suite, d: Draft, m: MessageMetadata, message: JsEntries, sealed: JsEntries,
                     senderSk: Key, receiverSk: Key)
    requires s.Lawful() && Honest(s, d, m) && Separated(s, d, receiverSk)
    requires d.sender == s.Public(senderSk) && s.Public(receiverSk) in d.Parties()
    requires ParseMessage(message) == Ok(d.message)
    requires OnMessage(s, message, d.secretNonce, s.Public(receiverSk), senderSk, Encrypt) == Ok(sealed)
    ensures exists c :: SealsTo(s, s.Shared(s.Public(receiverSk), senderSk), d.secretNonce, d.message, c) &&
                        sealed == PrintMessage(c)
    ensures var sent := PrintMetadata(m) + map["secret_nonce" := Uint8Array(d.secretNonce)];
            match DecryptMetadata(s, sent, receiverSk)
            case Err(_) => false
            case Ok(view) =>
              match FirstNonce(view)
              case Err(_) => false
              case Ok(nonce) => OnMessage(s, sealed, nonce, d.sender, receiverSk, Decrypt) == Ok(PrintMessage(d.message))
  {
    ReaderSeesExactly(s, d, m, receiverSk);
    assert s.Public(receiverSk) in multiset(d.Parties());
    var own := multiset(d.Parties())[s.Public(receiverSk)];
    var view := m.(channels := seq(own, _ => Revealed(d)));
    FirstNoncePrinted(view);
    EncryptedMapDecrypts(s, message, d.message, d.secretNonce, senderSk, receiverSk, sealed);
  }
}
