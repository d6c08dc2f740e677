/** The message format, and the cipher derived for it field by field. */
module Messages {
  import opened Wrappers
  import opened ByteStrings
  import opened Crypto
  import opened Cypher

  datatype MessageType = RawData | File

  datatype MessageEntry = MessageEntry(key: Bytes, value: Bytes, kind: MessageType)

  datatype Message = Message(entries: seq<MessageEntry>)

  /** The derived cipher of an entry: its fields in order; the kind passes through. */
  function EncryptEntry(s: Suite, e: MessageEntry, nonce: Nonce, pk: Key, sk: Key): Result<MessageEntry, CypherError> {
    var key :- EncryptBytes(s, e.key, nonce, pk, sk);
    var value :- EncryptBytes(s, e.value, nonce, pk, sk);
    Ok(MessageEntry(key, value, e.kind))
  }

  function DecryptEntry(s: Suite, e: MessageEntry, nonce: Nonce, pk: Key, sk: Key): Result<MessageEntry, CypherError> {
    var key :- DecryptBytes(s, e.key, nonce, pk, sk);
    var value :- DecryptBytes(s, e.value, nonce, pk, sk);
    Ok(MessageEntry(key, value, e.kind))
  }

  function EntryEncrypter(s: Suite, nonce: Nonce, pk: Key, sk: Key): MessageEntry -> Result<MessageEntry, CypherError> {
    e => EncryptEntry(s, e, nonce, pk, sk)
  }

  function EntryDecrypter(s: Suite, nonce: Nonce, pk: Key, sk: Key): MessageEntry -> Result<MessageEntry, CypherError> {
    e => DecryptEntry(s, e, nonce, pk, sk)
  }

  function EncryptMessage(s: Suite, m: Message, nonce: Nonce, pk: Key, sk: Key): Result<Message, CypherError> {
    var entries :- Collect(m.entries, EntryEncrypter(s, nonce, pk, sk));
    Ok(Message(entries))
  }

  function DecryptMessage(s: Suite, m: Message, nonce: Nonce, pk: Key, sk: Key): Result<Message, CypherError> {
    var entries :- Collect(m.entries, EntryDecrypter(s, nonce, pk, sk));
    Ok(Message(entries))
  }

  /** `c` has the entries of `m`, in order and of the same kinds, each field one tag longer. */
  ghost predicate SameShape(m: Message, c: Message) {
    && |c.entries| == |m.entries|
    && forall i :: 0 <= i < |m.entries| ==>
                     && c.entries[i].kind == m.entries[i].kind
                     && |c.entries[i].key| == |m.entries[i].key| + TAG_SIZE
                     && |c.entries[i].value| == |m.entries[i].value| + TAG_SIZE
  }

  /**
   * A message encrypted by `a` for `b` is opened by either of them, entry for
   * entry; encryption changes only the fields' contents and lengths.
   */
  lemma MessageRoundTrip(s: Suite, m: Message, nonce: Nonce, a: Key, b: Key, c: Message)
    requires s.Lawful()
    requires EncryptMessage(s, m, nonce, s.Public(b), a) == Ok(c)
    ensures SameShape(m, c)
    ensures DecryptMessage(s, c, nonce, s.Public(a), b) == Ok(m)
    ensures DecryptMessage(s, c, nonce, s.Public(b), a) == Ok(m)
  {
    CollectOk(m.entries, EntryEncrypter(s, nonce, s.Public(b), a), c.entries);
    forall i | 0 <= i < |m.entries|
      ensures DecryptEntry(s, c.entries[i], nonce, s.Public(a), b) == Ok(m.entries[i])
      ensures DecryptEntry(s, c.entries[i], nonce, s.Public(b), a) == Ok(m.entries[i])
      ensures |c.entries[i].key| == |m.entries[i].key| + TAG_SIZE
      ensures |c.entries[i].value| == |m.entries[i].value| + TAG_SIZE
      ensures c.entries[i].kind == m.entries[i].kind
    {
      var e, x := m.entries[i], c.entries[i];
      assert EncryptEntry(s, e, nonce, s.Public(b), a) == Ok(x);
      BytesRoundTrip(s, e.key, nonce, a, b, x.key);
      BytesRoundTrip(s, e.value, nonce, a, b, x.value);
    }
    CollectOk(c.entries, EntryDecrypter(s, nonce, s.Public(a), b), m.entries);
    CollectOk(c.entries, EntryDecrypter(s, nonce, s.Public(b), a), m.entries);
  }

  /** `c` is `m` with each key and value sealed in place, and the kinds as they were. */
  ghost predicate SealsTo(s: Suite, key: Key, nonce: Nonce, m: Message, c: Message) {
    && |c.entries| == |m.entries|
    && forall i :: 0 <= i < |m.entries| ==>
                     && c.entries[i].kind == m.entries[i].kind
                     && s.Seal(key, nonce, m.entries[i].key) == Some(c.entries[i].key)
                     && s.Seal(key, nonce, m.entries[i].value) == Some(c.entries[i].value)
  }

  /** `m` is `c` with each key and value opened in place, and the kinds as they were. */
  ghost predicate OpensTo(s: Suite, key: Key, nonce: Nonce, c: Message, m: Message) {
    && |m.entries| == |c.entries|
    && forall i :: 0 <= i < |c.entries| ==>
                     && m.entries[i].kind == c.entries[i].kind
                     && s.Open(key, nonce, c.entries[i].key) == Some(m.entries[i].key)
                     && s.Open(key, nonce, c.entries[i].value) == Some(m.entries[i].value)
  }

  /** Encrypting gives a message exactly when it is the sealed form of the original under the shared key. */
  lemma EncryptMessageExactly(s: Suite, m: Message, nonce: Nonce, pk: Key, sk: Key, c: Message)
    ensures EncryptMessage(s, m, nonce, pk, sk) == Ok(c) <==> SealsTo(s, s.Shared(pk, sk), nonce, m, c)
  {
    var f := EntryEncrypter(s, nonce, pk, sk);
    CollectOk(m.entries, f, c.entries);
    if |c.entries| == |m.entries| {
      forall i | 0 <= i < |m.entries|
        ensures f(m.entries[i]) == Ok(c.entries[i]) <==>
                && c.entries[i].kind == m.entries[i].kind
                && s.Seal(s.Shared(pk, sk), nonce, m.entries[i].key) == Some(c.entries[i].key)
                && s.Seal(s.Shared(pk, sk), nonce, m.entries[i].value) == Some(c.entries[i].value)
      {
        assert f(m.entries[i]) == EncryptEntry(s, m.entries[i], nonce, pk, sk);
      }
    }
  }

  /** Decrypting gives a message exactly when it is the opened form of the original under the shared key. */
  lemma DecryptMessageOpens(s: Suite, c: Message, nonce: Nonce, pk: Key, sk: Key, m: Message)
    ensures DecryptMessage(s, c, nonce, pk, sk) == Ok(m) <==> OpensTo(s, s.Shared(pk, sk), nonce, c, m)
  {
    var f := EntryDecrypter(s, nonce, pk, sk);
    CollectOk(c.entries, f, m.entries);
    if |m.entries| == |c.entries| {
      forall i | 0 <= i < |c.entries|
        ensures f(c.entries[i]) == Ok(m.entries[i]) <==>
                && m.entries[i].kind == c.entries[i].kind
                && s.Open(s.Shared(pk, sk), nonce, c.entries[i].key) == Some(m.entries[i].key)
                && s.Open(s.Shared(pk, sk), nonce, c.entries[i].value) == Some(m.entries[i].value)
      {
        assert f(c.entries[i]) == DecryptEntry(s, c.entries[i], nonce, pk, sk);
      }
    }
  }

  ghost predicate FieldsOpen(s: Suite, e: MessageEntry, nonce: Nonce, pk: Key, sk: Key) {
    s.Open(s.Shared(pk, sk), nonce, e.key).Some? && s.Open(s.Shared(pk, sk), nonce, e.value).Some?
  }

  /**
   * Decrypting any message fails exactly when some field fails to open, the
   * error names the key that was tried, and success opens every field in place.
   */
  lemma DecryptMessageExactly(s: Suite, m: Message, nonce: Nonce, pk: Key, sk: Key)
    ensures DecryptMessage(s, m, nonce, pk, sk).Ok? <==>
            forall i :: 0 <= i < |m.entries| ==> FieldsOpen(s, m.entries[i], nonce, pk, sk)
    ensures DecryptMessage(s, m, nonce, pk, sk).Err? ==>
            DecryptMessage(s, m, nonce, pk, sk) == Err(DecryptionFailed(pk))
    ensures match DecryptMessage(s, m, nonce, pk, sk)
            case Err(_) => true
            case Ok(p) =>
              |p.entries| == |m.entries| &&
              forall i :: 0 <= i < |m.entries| ==>
                            && p.entries[i].kind == m.entries[i].kind
                            && Some(p.entries[i].key) == s.Open(s.Shared(pk, sk), nonce, m.entries[i].key)
                            && Some(p.entries[i].value) == s.Open(s.Shared(pk, sk), nonce, m.entries[i].value)
  {
    var f := EntryDecrypter(s, nonce, pk, sk);
    match Collect(m.entries, f)
    case Ok(es) =>
      CollectOk(m.entries, f, es);
      forall i | 0 <= i < |m.entries|
        ensures FieldsOpen(s, m.entries[i], nonce, pk, sk)
        ensures Ok(es[i]) == DecryptEntry(s, m.entries[i], nonce, pk, sk)
      {
        assert f(m.entries[i]) == Ok(es[i]);
      }
    case Err(e) =>
      CollectErr(m.entries, f);
      var i :| 0 <= i < |m.entries| && f(m.entries[i]) == Err(e);
      assert !FieldsOpen(s, m.entries[i], nonce, pk, sk);
  }

  /** Encrypting fails exactly when some field cannot be sealed, naming the recipient. */
  lemma EncryptMessageFails(s: Suite, m: Message, nonce: Nonce, pk: Key, sk: Key)
    ensures EncryptMessage(s, m, nonce, pk, sk).Err? <==>
            exists i :: 0 <= i < |m.entries| &&
                        (s.Seal(s.Shared(pk, sk), nonce, m.entries[i].key) == None ||
                         s.Seal(s.Shared(pk, sk), nonce, m.entries[i].value) == None)
    ensures EncryptMessage(s, m, nonce, pk, sk).Err? ==>
            EncryptMessage(s, m, nonce, pk, sk) == Err(EncryptionFailed(pk))
  {
    var f := EntryEncrypter(s, nonce, pk, sk);
    match Collect(m.entries, f)
    case Ok(es) =>
      CollectOk(m.entries, f, es);
      forall i | 0 <= i < |m.entries|
        ensures s.Seal(s.Shared(pk, sk), nonce, m.entries[i].key).Some?
        ensures s.Seal(s.Shared(pk, sk), nonce, m.entries[i].value).Some?
      {
        assert f(m.entries[i]) == Ok(es[i]);
      }
    case Err(e) =>
      CollectErr(m.entries, f);
      var i :| 0 <= i < |m.entries| && f(m.entries[i]) == Err(e);
  }
}
