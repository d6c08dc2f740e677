/**
 * Message metadata: a square table of encrypted channels, one row for each
 * party, built by the sender and scanned by each reader.
 */
module Metadata {
  import opened Wrappers
  import opened ByteStrings
  import opened Crypto
  import opened Cypher
  import opened Messages
  import opened RootHash

  datatype Channel = Channel(nonce: Bytes, parties: seq<Bytes>)

  datatype MessageMetadata = MessageMetadata(nonce: Nonce, broker: Key, hash: Digest, channels: seq<Channel>)

  /** The arguments of `NewEncrypted`, with the two values it draws at random. */
  datatype Draft = Draft(
    origin: Key,
    publicNonce: Nonce,
    sender: Key,
    recipients: seq<Key>,
    message: Message,
    secretNonce: Nonce,
    brokerSk: Key)
  {
    function Parties(): seq<Key> {
      [sender] + recipients
    }

    function Input(s: Suite): RootInput {
      RootInput(origin, publicNonce, sender, s.Public(brokerSk), secretNonce, recipients, message)
    }

    /** The key under which the channel of party `i` is sealed. */
    function ChannelKey(s: Suite, i: nat): Key
      requires i < |Parties()|
    {
      s.Shared(Parties()[i], brokerSk)
    }
  }

  // --- building

  /** Row `i` of the table: the secret nonce, and every party under that nonce. */
  ghost predicate IsRow(s: Suite, d: Draft, i: nat, c: Channel)
    requires i < |d.Parties()|
  {
    && s.Seal(d.ChannelKey(s, i), d.publicNonce, d.secretNonce) == Some(c.nonce)
    && |c.parties| == |d.Parties()|
    && forall j :: 0 <= j < |c.parties| ==>
                     s.Seal(d.ChannelKey(s, i), d.secretNonce, d.Parties()[j]) == Some(c.parties[j])
  }

  /** The metadata that `d` gives rise to. */
  ghost predicate Honest(s: Suite, d: Draft, m: MessageMetadata) {
    && m.nonce == d.publicNonce
    && m.broker == s.Public(d.brokerSk)
    && m.hash == Root(s, d.Input(s))
    && |m.channels| == |d.Parties()|
    && forall i :: 0 <= i < |m.channels| ==> IsRow(s, d, i, m.channels[i])
  }

  /** Row `i` can be sealed. */
  ghost predicate RowSeals(s: Suite, d: Draft, i: nat)
    requires i < |d.Parties()|
  {
    && s.Seal(d.ChannelKey(s, i), d.publicNonce, d.secretNonce).Some?
    && forall j :: 0 <= j < |d.Parties()| ==> s.Seal(d.ChannelKey(s, i), d.secretNonce, d.Parties()[j]).Some?
  }

  function PartyEncrypter(s: Suite, nonce: Nonce, pk: Key, sk: Key): Bytes -> Result<Bytes, CypherError> {
    p => EncryptBytes(s, p, nonce, pk, sk)
  }

  method NewEncrypted(s: Suite, d: Draft) returns (r: Result<(MessageMetadata, Nonce), CypherError>)
    ensures match r
            case Ok((m, secretNonce)) => Honest(s, d, m) && secretNonce == d.secretNonce
            case Err(e) =>
              exists i :: 0 <= i < |d.Parties()| && !RowSeals(s, d, i) && e == EncryptionFailed(d.Parties()[i]) &&
                          forall k :: 0 <= k < i ==> RowSeals(s, d, k)
  {
    var brokerPk := s.Public(d.brokerSk);
    var parties := [d.sender];
    parties := parties + d.recipients;

    var encryptedChannels: seq<Channel> := [];
    for i := 0 to |parties|
      invariant |encryptedChannels| == i
      invariant forall k :: 0 <= k < i ==> IsRow(s, d, k, encryptedChannels[k]) && RowSeals(s, d, k)
    {
      var party := parties[i];
      var nonce := EncryptBytes(s, d.secretNonce, d.publicNonce, party, d.brokerSk);
      if nonce.Err? {
        assert !RowSeals(s, d, i);
        return Err(nonce.error);
      }
      var listed := Collect(parties, PartyEncrypter(s, d.secretNonce, party, d.brokerSk));
      if listed.Err? {
        CollectErr(parties, PartyEncrypter(s, d.secretNonce, party, d.brokerSk));
        assert !RowSeals(s, d, i);
        return Err(listed.error);
      }
      CollectOk(parties, PartyEncrypter(s, d.secretNonce, party, d.brokerSk), listed.value);
      assert forall j :: 0 <= j < |parties| ==>
                           PartyEncrypter(s, d.secretNonce, party, d.brokerSk)(parties[j]) == Ok(listed.value[j]);
      var channel := Channel(nonce.value, listed.value);
      assert IsRow(s, d, i, channel) && RowSeals(s, d, i);
      encryptedChannels := encryptedChannels + [channel];
    }

    var hasher := ComputeRootHash(s, d.Input(s));
    var hash := hasher.Finalize();
    r := Ok((MessageMetadata(d.publicNonce, brokerPk, hash, encryptedChannels), d.secretNonce));
  }

  /** Party `i` of a draft: the sender first, then the recipients in order. */
  ghost function PartyAt(d: Draft, i: nat): Key
    requires i <= |d.recipients|
  {
    if i == 0 then d.sender else d.recipients[i - 1]
  }

  /**
   * Honest metadata from the primitives: the header, the hash of the seven
   * digests, and in row `i` the secret nonce under the public nonce and every
   * party under the secret nonce, all sealed with the key that party `i` shares
   * with the broker.
   */
  lemma HonestLayout(s: Suite, d: Draft, m: MessageMetadata)
    requires Honest(s, d, m)
    ensures m.nonce == d.publicNonce && m.broker == s.Public(d.brokerSk)
    ensures var n := d.secretNonce;
            m.hash == s.Hash(s.Hash(d.origin + n) + s.Hash(d.publicNonce + n) + s.Hash(n + n)
                             + s.Hash(s.Public(d.brokerSk) + n) + s.Hash(d.sender + n)
                             + s.Hash(Group(s, d.recipients, n)) + s.Hash(Group(s, Fields(d.message.entries), n)))
    ensures |m.channels| == 1 + |d.recipients|
    ensures forall i :: 0 <= i < |m.channels| ==>
                          && s.Seal(s.Shared(PartyAt(d, i), d.brokerSk), d.publicNonce, d.secretNonce) ==
                             Some(m.channels[i].nonce)
                          && |m.channels[i].parties| == 1 + |d.recipients|
    ensures forall i, j :: 0 <= i < |m.channels| && 0 <= j < |m.channels[i].parties| ==>
                             s.Seal(s.Shared(PartyAt(d, i), d.brokerSk), d.secretNonce, PartyAt(d, j)) ==
                             Some(m.channels[i].parties[j])
  {
    RootLayout(s, d.Input(s));
    forall i | 0 <= i < |d.Parties()|
      ensures d.Parties()[i] == PartyAt(d, i)
      ensures IsRow(s, d, i, m.channels[i])
    {
    }
  }

  /** A draft determines its metadata. */
  lemma HonestIsUnique(s: Suite, d: Draft, m: MessageMetadata, n: MessageMetadata)
    requires Honest(s, d, m) && Honest(s, d, n)
    ensures m == n
  {
    forall i | 0 <= i < |m.channels|
      ensures m.channels[i] == n.channels[i]
    {
      assert IsRow(s, d, i, m.channels[i]) && IsRow(s, d, i, n.channels[i]);
      assert m.channels[i].parties == n.channels[i].parties;
    }
  }

  // --- reading

  /** Why a scan stops: a party entry fails to open, or an opened nonce has the wrong size. */
  datatype Fault = Failed(error: CypherError) | NotANonce(content: Bytes)

  /** What a reader makes of one channel. */
  datatype Opened = NotOurs | Ours(channel: Channel) | Faulty(fault: Fault)

  function PartyDecrypter(s: Suite, nonce: Nonce, pk: Key, sk: Key): Bytes -> Result<Bytes, CypherError> {
    p => DecryptBytes(s, p, nonce, pk, sk)
  }

  function OpenChannel(s: Suite, m: MessageMetadata, receiverSk: Key, c: Channel): Opened {
    match DecryptBytes(s, c.nonce, m.nonce, m.broker, receiverSk)
    case Err(_) => NotOurs
    case Ok(nonce) =>
      if |nonce| != NONCE_SIZE then Faulty(NotANonce(nonce))
      else
        match Collect(c.parties, PartyDecrypter(s, nonce, m.broker, receiverSk))
        case Err(e) => Faulty(Failed(e))
        case Ok(parties) => Ours(Channel(nonce, parties))
  }

  function Openings(s: Suite, m: MessageMetadata, receiverSk: Key, channels: seq<Channel>): seq<Opened> {
    seq(|channels|, i requires 0 <= i < |channels| => OpenChannel(s, m, receiverSk, channels[i]))
  }

  /** The channels that opened, in order. */
  function Mine(os: seq<Opened>): seq<Channel> {
    if os == [] then []
    else
      var o := os[|os| - 1];
      Mine(os[..|os| - 1]) + if o.Ours? then [o.channel] else []
  }

  function FirstFault(os: seq<Opened>): Option<Fault> {
    if os == [] then None
    else
      match FirstFault(os[..|os| - 1])
      case Some(f) => Some(f)
      case None => if os[|os| - 1].Faulty? then Some(os[|os| - 1].fault) else None
  }

  /** Decryption as a filter and map over the channels, unless one of them is at fault. */
  function Decrypted(s: Suite, m: MessageMetadata, receiverSk: Key): Result<MessageMetadata, Fault> {
    var os := Openings(s, m, receiverSk, m.channels);
    match FirstFault(os)
    case Some(f) => Err(f)
    case None => Ok(m.(channels := Mine(os)))
  }

  lemma {:induction false} FaultPersists(os: seq<Opened>, i: nat)
    requires i <= |os| && FirstFault(os[..i]).Some?
    ensures FirstFault(os) == FirstFault(os[..i])
    decreases |os|
  {
    if i == |os| {
      assert os[..i] == os;
    } else {
      assert os[..|os| - 1][..i] == os[..i];
      FaultPersists(os[..|os| - 1], i);
    }
  }

  method Decrypt(s: Suite, m: MessageMetadata, receiverSk: Key) returns (r: Result<MessageMetadata, Fault>)
    ensures r == Decrypted(s, m, receiverSk)
  {
    var publicNonce := m.nonce;
    var brokerPk := m.broker;
    ghost var os := Openings(s, m, receiverSk, m.channels);

    var channels: seq<Channel> := [];
    for i := 0 to |m.channels|
      invariant channels == Mine(os[..i]) && FirstFault(os[..i]) == None
    {
      var channel := m.channels[i];
      assert os[..i + 1][..i] == os[..i];
      var nonce := DecryptBytes(s, channel.nonce, publicNonce, brokerPk, receiverSk);
      if nonce.Err? {
        continue;
      }
      if |nonce.value| != NONCE_SIZE {
        FaultPersists(os, i + 1);
        return Err(NotANonce(nonce.value));
      }
      var secretNonce: Nonce := nonce.value;
      var parties := Collect(channel.parties, PartyDecrypter(s, secretNonce, brokerPk, receiverSk));
      if parties.Err? {
        FaultPersists(os, i + 1);
        return Err(Failed(parties.error));
      }
      channels := channels + [Channel(secretNonce, parties.value)];
    }
    assert os[..|m.channels|] == os;
    r := Ok(m.(channels := channels));
  }

  // --- what the scan does to arbitrary metadata

  /** The channel's nonce opens under the reader's key. */
  ghost predicate NonceOpens(s: Suite, m: MessageMetadata, receiverSk: Key, c: Channel) {
    s.Open(s.Shared(m.broker, receiverSk), m.nonce, c.nonce).Some?
  }

  /** The channel's nonce opens to a nonce, under which every party entry opens. */
  ghost predicate FullyOpens(s: Suite, m: MessageMetadata, receiverSk: Key, c: Channel) {
    var key := s.Shared(m.broker, receiverSk);
    NonceOpens(s, m, receiverSk, c) &&
    var nonce := s.Open(key, m.nonce, c.nonce).value;
    |nonce| == NONCE_SIZE && forall j :: 0 <= j < |c.parties| ==> s.Open(key, nonce, c.parties[j]).Some?
  }

  /** `d` is `c` with its nonce and all its parties opened. */
  ghost predicate IsOpenedForm(s: Suite, m: MessageMetadata, receiverSk: Key, c: Channel, d: Channel) {
    var key := s.Shared(m.broker, receiverSk);
    && s.Open(key, m.nonce, c.nonce) == Some(d.nonce)
    && |d.nonce| == NONCE_SIZE
    && |d.parties| == |c.parties|
    && forall j :: 0 <= j < |c.parties| ==> s.Open(key, d.nonce, c.parties[j]) == Some(d.parties[j])
  }

  /** What a channel that opens by half fails with: a nonce of the wrong size, or a party that stays shut. */
  ghost function HalfOpenFault(s: Suite, m: MessageMetadata, receiverSk: Key, c: Channel): Fault
    requires NonceOpens(s, m, receiverSk, c)
  {
    var content := s.Open(s.Shared(m.broker, receiverSk), m.nonce, c.nonce).value;
    if |content| != NONCE_SIZE then NotANonce(content) else Failed(DecryptionFailed(m.broker))
  }

  lemma OpenChannelExactly(s: Suite, m: MessageMetadata, receiverSk: Key, c: Channel)
    ensures OpenChannel(s, m, receiverSk, c).NotOurs? <==> !NonceOpens(s, m, receiverSk, c)
    ensures OpenChannel(s, m, receiverSk, c).Ours? <==> FullyOpens(s, m, receiverSk, c)
    ensures match OpenChannel(s, m, receiverSk, c)
            case Ours(d) => IsOpenedForm(s, m, receiverSk, c, d)
            case Faulty(f) => NonceOpens(s, m, receiverSk, c) && f == HalfOpenFault(s, m, receiverSk, c)
            case NotOurs => true
  {
    match DecryptBytes(s, c.nonce, m.nonce, m.broker, receiverSk)
    case Err(_) =>
    case Ok(nonce) =>
      if |nonce| == NONCE_SIZE {
        var f := PartyDecrypter(s, nonce, m.broker, receiverSk);
        match Collect(c.parties, f)
        case Err(e) =>
          CollectErr(c.parties, f);
          var i :| 0 <= i < |c.parties| && f(c.parties[i]) == Err(e);
        case Ok(ps) =>
          CollectOk(c.parties, f, ps);
          forall j | 0 <= j < |c.parties|
            ensures s.Open(s.Shared(m.broker, receiverSk), nonce, c.parties[j]) == Some(ps[j])
          {
            assert f(c.parties[j]) == Ok(ps[j]);
          }
      }
  }

  lemma {:induction false} FirstFaultExactly(os: seq<Opened>)
    ensures FirstFault(os) == None <==> forall i :: 0 <= i < |os| ==> !os[i].Faulty?
    ensures FirstFault(os).Some? ==>
              exists i :: 0 <= i < |os| && os[i] == Faulty(FirstFault(os).value) &&
                          forall k :: 0 <= k < i ==> !os[k].Faulty?
  {
    if os == [] {
    } else {
      var n := |os| - 1;
      FirstFaultExactly(os[..n]);
      if FirstFault(os[..n]).Some? {
        var i :| 0 <= i < n && os[..n][i] == Faulty(FirstFault(os).value) &&
                 forall k :: 0 <= k < i ==> !os[..n][k].Faulty?;
        assert os[i].Faulty? && forall k :: 0 <= k < i ==> os[..n][k] == os[k];
      } else {
        assert forall i :: 0 <= i < n ==> os[..n][i] == os[i];
      }
    }
  }

  /** Where the channels that opened stand in the table. */
  function Positions(os: seq<Opened>): seq<nat> {
    if os == [] then []
    else Positions(os[..|os| - 1]) + if os[|os| - 1].Ours? then [|os| - 1] else []
  }

  /** `at` lists, in increasing order, the positions of all channels that opened, and `cs` those channels. */
  ghost predicate Selects(os: seq<Opened>, at: seq<nat>, cs: seq<Channel>) {
    && |at| == |cs|
    && (forall k :: 0 <= k < |at| ==> at[k] < |os| && os[at[k]] == Ours(cs[k]))
    && (forall k, l :: 0 <= k < l < |at| ==> at[k] < at[l])
    && (forall i :: 0 <= i < |os| && os[i].Ours? ==> i in at)
  }

  lemma SelectsNext(os: seq<Opened>, at: seq<nat>, cs: seq<Channel>, c: Channel)
    requires Selects(os, at, cs)
    ensures Selects(os + [Ours(c)], at + [|os|], cs + [c])
  {
    var os', at' := os + [Ours(c)], at + [|os|];
    forall i | 0 <= i < |os'| && os'[i].Ours?
      ensures i in at'
    {
      if i == |os| {
        assert at'[|at|] == i;
      } else {
        assert i in at;
      }
    }
  }

  lemma SelectsNone(os: seq<Opened>, at: seq<nat>, cs: seq<Channel>, o: Opened)
    requires Selects(os, at, cs) && !o.Ours?
    ensures Selects(os + [o], at, cs)
  {
    forall i | 0 <= i < |os + [o]| && (os + [o])[i].Ours?
      ensures i in at
    {
      assert i < |os| && os[i].Ours?;
    }
  }

  lemma {:induction false} MineIsSubsequence(os: seq<Opened>)
    ensures Selects(os, Positions(os), Mine(os))
  {
    if os == [] {
    } else {
      var n := |os| - 1;
      MineIsSubsequence(os[..n]);
      assert os == os[..n] + [os[n]];
      if os[n].Ours? {
        SelectsNext(os[..n], Positions(os[..n]), Mine(os[..n]), os[n].channel);
      } else {
        SelectsNone(os[..n], Positions(os[..n]), Mine(os[..n]), os[n]);
      }
    }
  }

  /** The scan stops at channel `i`: the first one whose nonce opens but which does not open fully. */
  ghost predicate StopsScan(s: Suite, m: MessageMetadata, receiverSk: Key, i: int) {
    && 0 <= i < |m.channels|
    && NonceOpens(s, m, receiverSk, m.channels[i]) && !FullyOpens(s, m, receiverSk, m.channels[i])
    && forall k :: 0 <= k < i && NonceOpens(s, m, receiverSk, m.channels[k]) ==>
                     FullyOpens(s, m, receiverSk, m.channels[k])
  }

  /**
   * Reading arbitrary metadata succeeds exactly when every channel whose nonce
   * opens opens fully, and then yields exactly those channels, opened in place
   * and in their order, with every other field unchanged.  Otherwise the first
   * channel that opens by half decides the failure.
   */
  lemma DecryptedExactly(s: Suite, m: MessageMetadata, receiverSk: Key)
    ensures Decrypted(s, m, receiverSk).Ok? <==>
            forall i :: 0 <= i < |m.channels| && NonceOpens(s, m, receiverSk, m.channels[i]) ==>
                          FullyOpens(s, m, receiverSk, m.channels[i])
    ensures match Decrypted(s, m, receiverSk)
            case Err(f) =>
              exists i :: StopsScan(s, m, receiverSk, i) && f == HalfOpenFault(s, m, receiverSk, m.channels[i])
            case Ok(r) =>
              r == m.(channels := r.channels) &&
              var at := Positions(Openings(s, m, receiverSk, m.channels));
              && |at| == |r.channels|
              && (forall k, l :: 0 <= k < l < |at| ==> at[k] < at[l])
              && (forall k :: 0 <= k < |at| ==> at[k] < |m.channels| &&
                                                IsOpenedForm(s, m, receiverSk, m.channels[at[k]], r.channels[k]))
              && (forall i :: 0 <= i < |m.channels| && NonceOpens(s, m, receiverSk, m.channels[i]) ==> i in at)
  {
    var os := Openings(s, m, receiverSk, m.channels);
    forall i | 0 <= i < |m.channels|
      ensures os[i].NotOurs? <==> !NonceOpens(s, m, receiverSk, m.channels[i])
      ensures os[i].Ours? <==> FullyOpens(s, m, receiverSk, m.channels[i])
      ensures os[i].Ours? ==> IsOpenedForm(s, m, receiverSk, m.channels[i], os[i].channel)
      ensures os[i].Faulty? ==> os[i].fault == HalfOpenFault(s, m, receiverSk, m.channels[i])
    {
      OpenChannelExactly(s, m, receiverSk, m.channels[i]);
    }
    FirstFaultExactly(os);
    MineIsSubsequence(os);
    if Decrypted(s, m, receiverSk).Err? {
      var i :| 0 <= i < |os| && os[i] == Faulty(FirstFault(os).value) && forall k :: 0 <= k < i ==> !os[k].Faulty?;
      assert StopsScan(s, m, receiverSk, i);
    }
  }

  /** There is at most one channel at which the scan stops. */
  lemma StopsOnce(s: Suite, m: MessageMetadata, receiverSk: Key, i: int, j: int)
    requires StopsScan(s, m, receiverSk, i) && StopsScan(s, m, receiverSk, j)
    ensures i == j
  {
  }

  /**
   * Reading panics exactly when the nonce of the channel that stops the scan
   * opens to other than 24 bytes, and those are the bytes it fails on.
   */
  lemma DecryptPanicsExactly(s: Suite, m: MessageMetadata, receiverSk: Key, content: Bytes)
    ensures Decrypted(s, m, receiverSk) == Err(NotANonce(content)) <==>
            |content| != NONCE_SIZE &&
            exists i :: StopsScan(s, m, receiverSk, i) &&
                        s.Open(s.Shared(m.broker, receiverSk), m.nonce, m.channels[i].nonce) == Some(content)
  {
    DecryptedExactly(s, m, receiverSk);
    forall i, j | StopsScan(s, m, receiverSk, i) && StopsScan(s, m, receiverSk, j)
      ensures i == j
    {
      StopsOnce(s, m, receiverSk, i, j);
    }
  }

  /**
   * Reading returns an error exactly when the nonce of the channel that stops the
   * scan opens to 24 bytes, so that a party under it stays shut; the error names
   * the broker.
   */
  lemma DecryptErrsExactly(s: Suite, m: MessageMetadata, receiverSk: Key, e: CypherError)
    ensures Decrypted(s, m, receiverSk) == Err(Failed(e)) <==>
            e == DecryptionFailed(m.broker) &&
            exists i :: StopsScan(s, m, receiverSk, i) &&
                        |s.Open(s.Shared(m.broker, receiverSk), m.nonce, m.channels[i].nonce).value| == NONCE_SIZE
  {
    DecryptedExactly(s, m, receiverSk);
    forall i, j | StopsScan(s, m, receiverSk, i) && StopsScan(s, m, receiverSk, j)
      ensures i == j
    {
      StopsOnce(s, m, receiverSk, i, j);
    }
  }

  /**
   * A single channel that opens by half spoils the reading of all others: here
   * the reader's own first channel opens fully, yet nothing is returned.
   */
  lemma HalfOpenChannelSpoilsTheRest()
    ensures var s := Toy();
            var key: Key := Zeros(KEY_SIZE);
            var nonce: Nonce := Zeros(NONCE_SIZE);
            var own := Channel(nonce + key[..TAG_SIZE], []);
            var m := MessageMetadata(nonce, key, key, [own, own.(parties := [[]])]);
            && s.Lawful()
            && FullyOpens(s, m, key, m.channels[0])
            && Decrypted(s, m, key) == Err(Failed(DecryptionFailed(m.broker)))
  {
    ToyIsLawful();
    var s := Toy();
    var key: Key := Zeros(KEY_SIZE);
    var nonce: Nonce := Zeros(NONCE_SIZE);
    var own := Channel(nonce + key[..TAG_SIZE], []);
    var m := MessageMetadata(nonce, key, key, [own, own.(parties := [[]])]);
    assert Mix(key, key) == key;
    assert own.nonce[|own.nonce| - TAG_SIZE..] == key[..TAG_SIZE] && own.nonce[..NONCE_SIZE] == nonce;
    assert s.Open(s.Shared(key, key), nonce, own.nonce) == Some(nonce);
    assert s.Open(s.Shared(key, key), nonce, []) == None;
    assert !FullyOpens(s, m, key, m.channels[1]) by {
      assert m.channels[1].parties[0] == [];
    }
    assert NonceOpens(s, m, key, m.channels[1]);
    DecryptedExactly(s, m, key);
    assert m.channels[0] == own;
    OpenChannelExactly(s, m, key, m.channels[0]);
    OpenChannelExactly(s, m, key, m.channels[1]);
  }

  // --- what each party reads from honest metadata

  /**
   * Key separation in this run: no channel sealed for another party opens
   * under the key that the receiver shares with the broker.
   */
  ghost predicate Separated(s: Suite, d: Draft, receiverSk: Key) {
    forall i :: 0 <= i < |d.Parties()| && d.Parties()[i] != s.Public(receiverSk) ==> RowStaysShut(s, d, receiverSk, i)
  }

  ghost predicate RowStaysShut(s: Suite, d: Draft, receiverSk: Key, i: nat)
    requires i < |d.Parties()|
  {
    match s.Seal(d.ChannelKey(s, i), d.publicNonce, d.secretNonce)
    case None => true
    case Some(c) => s.Open(s.Shared(s.Public(d.brokerSk), receiverSk), d.publicNonce, c) == None
  }

  /** Separation can be met: under the toy suite it holds of any keys that differ early on. */
  lemma ToySeparates(d: Draft, receiverSk: Key)
    requires forall i :: 0 <= i < |d.Parties()| && d.Parties()[i] != receiverSk ==>
                           d.Parties()[i][..TAG_SIZE] != receiverSk[..TAG_SIZE]
    ensures Toy().Lawful() && Separated(Toy(), d, receiverSk)
  {
    ToyIsLawful();
    var t := Toy();
    forall i | 0 <= i < |d.Parties()| && d.Parties()[i] != t.Public(receiverSk)
      ensures RowStaysShut(t, d, receiverSk, i)
    {
      var p, e := d.Parties()[i], d.brokerSk;
      assert t.Agrees(e, receiverSk);
      assert t.Open(t.Shared(receiverSk, e), d.publicNonce,
                    t.Seal(t.Shared(p, e), d.publicNonce, d.secretNonce).value) == None;
    }
  }

  /** Under the toy suite every draft gives rise to metadata. */
  lemma ToyHonest(d: Draft) returns (m: MessageMetadata)
    ensures Honest(Toy(), d, m)
  {
    var s := Toy();
    var ps := d.Parties();
    var channels := seq(|ps|, i requires 0 <= i < |ps| =>
      var tag := d.ChannelKey(s, i)[..TAG_SIZE];
      Channel(d.secretNonce + tag, seq(|ps|, j requires 0 <= j < |ps| => ps[j] + tag)));
    m := MessageMetadata(d.publicNonce, s.Public(d.brokerSk), Root(s, d.Input(s)), channels);
  }

  /** How often the key occurs. */
  function Occurrences(ks: seq<Key>, k: Key): nat {
    if ks == [] then 0
    else Occurrences(ks[..|ks| - 1], k) + if ks[|ks| - 1] == k then 1 else 0
  }

  lemma {:induction false} OccurrencesIsMultiplicity(ks: seq<Key>, k: Key)
    ensures Occurrences(ks, k) == multiset(ks)[k]
  {
    if ks == [] {
    } else {
      OccurrencesIsMultiplicity(ks[..|ks| - 1], k);
      assert ks == ks[..|ks| - 1] + [ks[|ks| - 1]];
    }
  }

  /** What a party should read from each channel of its own. */
  function Revealed(d: Draft): Channel {
    Channel(d.secretNonce, d.Parties())
  }

  /** The reader sees one channel per occurrence of its key among the parties, and all else unchanged. */
  ghost predicate ExactOpening(s: Suite, d: Draft, m: MessageMetadata, receiverSk: Key) {
    Decrypted(s, m, receiverSk) ==
    Ok(m.(channels := seq(multiset(d.Parties())[s.Public(receiverSk)], _ => Revealed(d))))
  }

  /** A row made for the receiver opens to the secret nonce and the whole list of parties. */
  lemma OwnRowOpens(s: Suite, d: Draft, m: MessageMetadata, receiverSk: Key, i: nat)
    requires s.Lawful() && Honest(s, d, m)
    requires i < |d.Parties()| && d.Parties()[i] == s.Public(receiverSk)
    ensures OpenChannel(s, m, receiverSk, m.channels[i]) == Ours(Revealed(d))
  {
    var c := m.channels[i];
    var key := d.ChannelKey(s, i);
    assert IsRow(s, d, i, c);
    assert s.Agrees(receiverSk, d.brokerSk);
    assert s.SealOpens(key, d.publicNonce, d.secretNonce);
    var f := PartyDecrypter(s, d.secretNonce, m.broker, receiverSk);
    forall j | 0 <= j < |c.parties|
      ensures f(c.parties[j]) == Ok(d.Parties()[j])
    {
      assert s.SealOpens(key, d.secretNonce, d.Parties()[j]);
    }
    CollectOk(c.parties, f, d.Parties());
  }

  lemma OtherRow(s: Suite, d: Draft, m: MessageMetadata, receiverSk: Key, i: nat)
    requires Honest(s, d, m) && i < |d.Parties()|
    ensures RowStaysShut(s, d, receiverSk, i) <==> OpenChannel(s, m, receiverSk, m.channels[i]).NotOurs?
  {
    assert IsRow(s, d, i, m.channels[i]);
  }

  /** If exactly the rows of `k` open, the scan collects one channel per occurrence. */
  lemma {:induction false} OnlyOwnRows(os: seq<Opened>, ks: seq<Key>, k: Key, c: Channel)
    requires |os| == |ks|
    requires forall i :: 0 <= i < |os| ==> os[i] == if ks[i] == k then Ours(c) else NotOurs
    ensures FirstFault(os) == None && Mine(os) == seq(Occurrences(ks, k), _ => c)
  {
    if os == [] {
    } else {
      var n := |os| - 1;
      OnlyOwnRows(os[..n], ks[..n], k, c);
    }
  }

  /** If the rows of `k` open, the scan collects a channel for each, and more when another row opens. */
  lemma {:induction false} OwnRowsAtLeast(os: seq<Opened>, ks: seq<Key>, k: Key)
    requires |os| == |ks|
    requires forall i :: 0 <= i < |os| && ks[i] == k ==> os[i].Ours?
    requires forall i :: 0 <= i < |os| ==> !os[i].Faulty?
    ensures |Mine(os)| >= Occurrences(ks, k)
    ensures |Mine(os)| == Occurrences(ks, k) ==> forall i :: 0 <= i < |os| && ks[i] != k ==> os[i].NotOurs?
  {
    if os == [] {
    } else {
      var n := |os| - 1;
      OwnRowsAtLeast(os[..n], ks[..n], k);
      if |Mine(os)| == Occurrences(ks, k) {
        forall i | 0 <= i < |os| && ks[i] != k
          ensures os[i].NotOurs?
        {
          if i < n {
            assert os[..n][i] == os[i] && ks[..n][i] == ks[i];
          }
        }
      }
    }
  }

  /**
   * Honest metadata opens exactly when keys are separated: a receiver reads one
   * channel for each time it is listed, each with the secret nonce and the whole
   * party list in order, and an outsider reads none, if and only if no channel
   * of another party opens under the receiver's key.
   */
  lemma OpeningExactWhenSeparated(s: Suite, d: Draft, m: MessageMetadata, receiverSk: Key)
    requires s.Lawful() && Honest(s, d, m)
    ensures ExactOpening(s, d, m, receiverSk) <==> Separated(s, d, receiverSk)
  {
    var os, ks, k := Openings(s, m, receiverSk, m.channels), d.Parties(), s.Public(receiverSk);
    OccurrencesIsMultiplicity(ks, k);
    forall i | 0 <= i < |ks|
      ensures ks[i] == k ==> os[i] == Ours(Revealed(d))
      ensures RowStaysShut(s, d, receiverSk, i) <==> os[i].NotOurs?
    {
      OtherRow(s, d, m, receiverSk, i);
      if ks[i] == k {
        OwnRowOpens(s, d, m, receiverSk, i);
      }
    }
    if Separated(s, d, receiverSk) {
      OnlyOwnRows(os, ks, k, Revealed(d));
    }
    if ExactOpening(s, d, m, receiverSk) {
      FirstFaultExactly(os);
      assert Mine(os) == Decrypted(s, m, receiverSk).value.channels;
      OwnRowsAtLeast(os, ks, k);
    }
  }

  /** The first channel a listed party reads holds the secret nonce and all parties. */
  lemma FirstChannel(s: Suite, d: Draft, m: MessageMetadata, readerSk: Key)
    requires s.Lawful() && Honest(s, d, m) && Separated(s, d, readerSk)
    requires s.Public(readerSk) in d.Parties()
    ensures Decrypted(s, m, readerSk).Ok?
    ensures var channels := Decrypted(s, m, readerSk).value.channels; channels != [] && channels[0] == Revealed(d)
  {
    OpeningExactWhenSeparated(s, d, m, readerSk);
    assert s.Public(readerSk) in multiset(d.Parties());
  }

  // --- verification by a reader

  /**
   * The root a reader recomputes from opened metadata: the first party of the
   * first channel is the sender, the rest are the recipients.
   */
  function Recomputed(s: Suite, view: MessageMetadata, origin: Key, message: Message): Option<RootInput> {
    if view.channels == [] then None
    else
      var c := view.channels[0];
      if |c.nonce| == NONCE_SIZE && c.parties != [] && forall p | p in c.parties :: |p| == KEY_SIZE then
        var parties: seq<Key> := c.parties;
        Some(RootInput(origin, view.nonce, parties[0], view.broker, c.nonce, parties[1..], message))
      else None
  }

  /** The reader finds the claimed origin and message confirmed by the root hash. */
  ghost predicate Confirms(s: Suite, view: MessageMetadata, origin: Key, message: Message) {
    match Recomputed(s, view, origin, message)
    case None => false
    case Some(x) => Root(s, x) == view.hash
  }

  /** What any listed party recovers is the very input the sender hashed. */
  lemma PartyRecovers(s: Suite, d: Draft, m: MessageMetadata, receiverSk: Key, origin: Key, message: Message)
    requires s.Lawful() && Honest(s, d, m) && Separated(s, d, receiverSk)
    requires s.Public(receiverSk) in d.Parties()
    ensures Decrypted(s, m, receiverSk).Ok?
    ensures var view := Decrypted(s, m, receiverSk).value;
            && view.hash == m.hash
            && Recomputed(s, view, origin, message) == Some(d.Input(s).(origin := origin, message := message))
  {
    OpeningExactWhenSeparated(s, d, m, receiverSk);
    FirstChannel(s, d, m, receiverSk);
    assert d.Parties()[1..] == d.recipients;
  }

  /** Every listed party can confirm the original origin and message. */
  lemma EveryPartyConfirms(s: Suite, d: Draft, m: MessageMetadata, receiverSk: Key)
    requires s.Lawful() && Honest(s, d, m) && Separated(s, d, receiverSk)
    requires s.Public(receiverSk) in d.Parties()
    ensures Decrypted(s, m, receiverSk).Ok?
    ensures Confirms(s, Decrypted(s, m, receiverSk).value, d.origin, d.message)
  {
    PartyRecovers(s, d, m, receiverSk, d.origin, d.message);
  }

  /**
   * A party confirms a claimed origin and message exactly when the origin is
   * the signer's and the entries are the original ones up to their kinds;
   * otherwise the claim exhibits a hash collision, which is computed.
   */
  lemma PartyConfirmsOnlyTheOriginal(s: Suite, d: Draft, m: MessageMetadata, receiverSk: Key, origin: Key, message: Message)
    requires s.Lawful() && Honest(s, d, m) && Separated(s, d, receiverSk)
    requires s.Public(receiverSk) in d.Parties()
    ensures Decrypted(s, m, receiverSk).Ok?
    ensures var claim := d.Input(s).(origin := origin, message := message);
            match ExtractCollision(s, claim, d.Input(s))
            case Some((p, q)) => Collision(s, p, q)
            case None =>
              Confirms(s, Decrypted(s, m, receiverSk).value, origin, message) <==>
              origin == d.origin && Fields(message.entries) == Fields(d.message.entries)
  {
    PartyRecovers(s, d, m, receiverSk, origin, message);
    var claim := d.Input(s).(origin := origin, message := message);
    RootBinding(s, claim, d.Input(s));
    if origin == d.origin {
      FieldsAgree(claim, d.Input(s));
    }
  }

  /**
   * Two readers of any metadata with one root hash who each confirm a claim
   * agree on the whole content, or their claims exhibit a hash collision.
   */
  lemma ReadersAgree(s: Suite, one: MessageMetadata, two: MessageMetadata,
                     origin: Key, message: Message, otherOrigin: Key, otherMessage: Message)
    requires one.hash == two.hash
    requires Confirms(s, one, origin, message) && Confirms(s, two, otherOrigin, otherMessage)
    ensures var x := Recomputed(s, one, origin, message).value;
            var y := Recomputed(s, two, otherOrigin, otherMessage).value;
            match ExtractCollision(s, x, y)
            case Some((p, q)) => Collision(s, p, q)
            case None => SameContent(x, y)
  {
    RootBinding(s, Recomputed(s, one, origin, message).value, Recomputed(s, two, otherOrigin, otherMessage).value);
  }

  // --- what the root hash leaves open in the table

  /** Channel `c` is a row of the honest table made for the reader. */
  ghost predicate IsOwnRow(s: Suite, d: Draft, m: MessageMetadata, receiverSk: Key, c: Channel)
    requires Honest(s, d, m)
  {
    exists i :: 0 <= i < |m.channels| && d.Parties()[i] == s.Public(receiverSk) && c == m.channels[i]
  }

  /** If every opening yields `c` or nothing, the scan collects one `c` for each that does. */
  lemma {:induction false} SameOpenings(os: seq<Opened>, c: Channel)
    requires forall j :: 0 <= j < |os| ==> os[j] == Ours(c) || os[j] == NotOurs
    ensures FirstFault(os) == None && Mine(os) == seq(multiset(os)[Ours(c)], _ => c)
  {
    if os == [] {
    } else {
      var n := |os| - 1;
      SameOpenings(os[..n], c);
      assert os == os[..n] + [os[n]];
    }
  }

  /** What a channel opens to depends on the header of the metadata only. */
  lemma HeaderDecides(s: Suite, m: MessageMetadata, receiverSk: Key, channels: seq<Channel>)
    ensures Openings(s, m.(channels := channels), receiverSk, channels) == Openings(s, m, receiverSk, channels)
  {
    forall j | 0 <= j < |channels|
      ensures OpenChannel(s, m.(channels := channels), receiverSk, channels[j]) ==
              OpenChannel(s, m, receiverSk, channels[j])
    {
    }
  }

  /** One revealed channel is enough to confirm the original. */
  lemma RevealedConfirms(s: Suite, d: Draft, m: MessageMetadata, channels: seq<Channel>)
    requires Honest(s, d, m) && channels != [] && channels[0] == Revealed(d)
    ensures Confirms(s, m.(channels := channels), d.origin, d.message)
  {
    assert d.Parties()[1..] == d.recipients;
  }

  /**
   * The channels are not covered by the root hash.  Keep the header of honest
   * metadata and put any other channels in the table, in any number and order:
   * as long as each is a row of the reader or does not open for it, and one is a
   * row of the reader, the reader sees a copy for each of its rows and confirms
   * the original origin and message.
   */
  lemma ChannelsAreNotCovered(s: Suite, d: Draft, m: MessageMetadata, receiverSk: Key, channels: seq<Channel>)
    requires s.Lawful() && Honest(s, d, m)
    requires forall c :: c in channels ==> IsOwnRow(s, d, m, receiverSk, c) || !NonceOpens(s, m, receiverSk, c)
    requires exists c :: c in channels && IsOwnRow(s, d, m, receiverSk, c)
    ensures var copies := multiset(Openings(s, m, receiverSk, channels))[Ours(Revealed(d))];
            var view := m.(channels := seq(copies, _ => Revealed(d)));
            && copies > 0
            && Decrypted(s, m.(channels := channels), receiverSk) == Ok(view)
            && Confirms(s, view, d.origin, d.message)
  {
    var os := Openings(s, m, receiverSk, channels);
    forall j | 0 <= j < |channels|
      ensures os[j] == Ours(Revealed(d)) || os[j] == NotOurs
      ensures IsOwnRow(s, d, m, receiverSk, channels[j]) ==> os[j] == Ours(Revealed(d))
    {
      var c := channels[j];
      if IsOwnRow(s, d, m, receiverSk, c) {
        var i :| 0 <= i < |m.channels| && d.Parties()[i] == s.Public(receiverSk) && c == m.channels[i];
        OwnRowOpens(s, d, m, receiverSk, i);
      }
    }
    SameOpenings(os, Revealed(d));
    HeaderDecides(s, m, receiverSk, channels);
    var c :| c in channels && IsOwnRow(s, d, m, receiverSk, c);
    var j :| 0 <= j < |channels| && channels[j] == c;
    assert os[j] in multiset(os);
    var copies := multiset(os)[Ours(Revealed(d))];
    RevealedConfirms(s, d, m, seq(copies, _ => Revealed(d)));
  }

  /** The metadata with row `i` kept and the rows before and after it exchanged. */
  function KeepingRow(m: MessageMetadata, i: nat, before: seq<Channel>, after: seq<Channel>): MessageMetadata
    requires i < |m.channels|
  {
    m.(channels := before + [m.channels[i]] + after)
  }

  lemma OneOccurrence<T>(xs: seq<T>, i: nat)
    requires i < |xs|
    requires forall j :: 0 <= j < |xs| && j != i ==> xs[j] != xs[i]
    ensures multiset(xs)[xs[i]] == 1
  {
    assert xs == xs[..i] + [xs[i]] + xs[i + 1..];
    assert xs[i] !in multiset(xs[..i]);
    assert xs[i] !in multiset(xs[i + 1..]);
  }

  /** A single opening among channels that stay shut is collected alone. */
  lemma LoneOpening(os: seq<Opened>, i: nat, c: Channel)
    requires i < |os|
    requires forall j :: 0 <= j < |os| ==> os[j] == if j == i then Ours(c) else NotOurs
    ensures FirstFault(os) == None && Mine(os) == [c]
  {
    SameOpenings(os, c);
    OneOccurrence(os, i);
    assert seq(1, _ => c) == [c];
  }

  /** A single row of the reader, among channels that stay shut, is read and confirmed alone. */
  lemma KeptRowIsRead(s: Suite, d: Draft, m: MessageMetadata, receiverSk: Key, i: nat,
                      before: seq<Channel>, after: seq<Channel>)
    requires s.Lawful() && Honest(s, d, m)
    requires i < |m.channels| && d.Parties()[i] == s.Public(receiverSk)
    requires forall c :: c in before + after ==> !NonceOpens(s, m, receiverSk, c)
    ensures var view := m.(channels := [Revealed(d)]);
            && Decrypted(s, KeepingRow(m, i, before, after), receiverSk) == Ok(view)
            && Confirms(s, view, d.origin, d.message)
  {
    var at := |before|;
    var channels := before + [m.channels[i]] + after;
    var os := Openings(s, m, receiverSk, channels);
    OwnRowOpens(s, d, m, receiverSk, i);
    forall j | 0 <= j < |os|
      ensures os[j] == if j == at then Ours(Revealed(d)) else NotOurs
    {
      if j == at {
        assert channels[j] == m.channels[i];
      } else {
        assert channels[j] in before + after;
      }
    }
    LoneOpening(os, at, Revealed(d));
    HeaderDecides(s, m, receiverSk, channels);
    RevealedConfirms(s, d, m, [Revealed(d)]);
  }

  /**
   * Whatever metadata carries the hash of a draft, a reader confirms a claim
   * from it exactly when what it recovers, with the claim, has the content of
   * the draft; otherwise the two exhibit a hash collision, which is computed.
   */
  lemma ReaderConfirmsExactly(s: Suite, d: Draft, m: MessageMetadata, t: MessageMetadata, receiverSk: Key,
                              origin: Key, message: Message)
    requires Honest(s, d, m) && t.hash == m.hash && Decrypted(s, t, receiverSk).Ok?
    ensures var view := Decrypted(s, t, receiverSk).value;
            match Recomputed(s, view, origin, message)
            case None => !Confirms(s, view, origin, message)
            case Some(x) =>
              match ExtractCollision(s, x, d.Input(s))
              case Some((p, q)) => Collision(s, p, q)
              case None => Confirms(s, view, origin, message) <==> SameContent(x, d.Input(s))
  {
    var view := Decrypted(s, t, receiverSk).value;
    match Recomputed(s, view, origin, message)
    case None =>
    case Some(x) =>
      RootBinding(s, x, d.Input(s));
  }
}
