/**
 * The JavaScript form of metadata and messages: trees of maps, arrays and byte
 * arrays, printed and parsed by loops.
 */
module JsTree {
  import opened Wrappers
  import opened ByteStrings
  import opened Crypto
  import opened Cypher
  import opened Messages
  import opened RootHash
  import opened Metadata

  datatype JsValue =
    | Undefined
    | Primitive(text: string)
    | Uint8Array(data: Bytes)
    | JsArray(items: seq<JsValue>)
    | JsMap(entries: map<string, JsValue>)

  type JsEntries = map<string, JsValue>

  /** A value of the wrong type, bytes of the wrong size, a cipher error, or a panic on a nonce of the wrong size. */
  datatype JsFault = NotInstance(value: JsValue) | WrongSize(expected: nat) | Raised(error: CypherError) | Panicked

  // --- dynamic values

  function Get(m: JsEntries, key: string): JsValue {
    if key in m then m[key] else Undefined
  }

  function AsBytes(v: JsValue): Result<Bytes, JsFault> {
    if v.Uint8Array? then Ok(v.data) else Err(NotInstance(v))
  }

  function AsArray(v: JsValue): Result<seq<JsValue>, JsFault> {
    if v.JsArray? then Ok(v.items) else Err(NotInstance(v))
  }

  function AsMap(v: JsValue): Result<JsEntries, JsFault> {
    if v.JsMap? then Ok(v.entries) else Err(NotInstance(v))
  }

  function ToNonce(v: JsValue): Result<Nonce, JsFault> {
    var data :- AsBytes(v);
    if |data| == NONCE_SIZE then Ok(data) else Err(WrongSize(NONCE_SIZE))
  }

  function ToKey(v: JsValue): Result<Key, JsFault> {
    var data :- AsBytes(v);
    if |data| == KEY_SIZE then Ok(data) else Err(WrongSize(KEY_SIZE))
  }

  /** `a` holds everything `b` holds, in the same places; its maps may hold more. */
  ghost predicate Includes(a: JsValue, b: JsValue)
    decreases b
  {
    match b
    case JsMap(bs) => a.JsMap? && forall k :: k in bs ==> k in a.entries && Includes(a.entries[k], bs[k])
    case JsArray(bs) => a.JsArray? && |a.items| == |bs| && forall i :: 0 <= i < |bs| ==> Includes(a.items[i], bs[i])
    case _ => a == b
  }

  // --- printing

  function PrintChannel(c: Channel): JsValue {
    JsMap(map["nonce" := Uint8Array(c.nonce), "parties" := JsArray(PrintParties(c.parties))])
  }

  function PrintParties(ps: seq<Bytes>): seq<JsValue> {
    seq(|ps|, i requires 0 <= i < |ps| => Uint8Array(ps[i]))
  }

  function PrintChannels(cs: seq<Channel>): seq<JsValue> {
    seq(|cs|, i requires 0 <= i < |cs| => PrintChannel(cs[i]))
  }

  function PrintMetadata(m: MessageMetadata): JsEntries {
    map["nonce" := Uint8Array(m.nonce),
        "broker" := Uint8Array(m.broker),
        "hash" := Uint8Array(m.hash),
        "channels" := JsArray(PrintChannels(m.channels))]
  }

  method MetadataToJsMap(meta: MessageMetadata) returns (r: JsEntries)
    ensures r == PrintMetadata(meta)
  {
    r := map[];
    r := r["nonce" := Uint8Array(meta.nonce)];
    r := r["broker" := Uint8Array(meta.broker)];
    r := r["hash" := Uint8Array(meta.hash)];

    var channels: seq<JsValue> := [];
    for i := 0 to |meta.channels|
      invariant channels == PrintChannels(meta.channels[..i])
    {
      var ch := meta.channels[i];
      var channel: JsEntries := map[];
      channel := channel["nonce" := Uint8Array(ch.nonce)];

      var parties: seq<JsValue> := [];
      for j := 0 to |ch.parties|
        invariant parties == PrintParties(ch.parties[..j])
      {
        parties := parties + [Uint8Array(ch.parties[j])];
      }
      assert ch.parties[..|ch.parties|] == ch.parties;
      channel := channel["parties" := JsArray(parties)];
      assert JsMap(channel) == PrintChannel(ch);

      channels := channels + [JsMap(channel)];
    }
    assert meta.channels[..|meta.channels|] == meta.channels;
    r := r["channels" := JsArray(channels)];
  }

  // --- parsing

  function ParseChannel(v: JsValue): Result<Channel, JsFault> {
    var ch :- AsMap(v);
    var nonce :- AsBytes(Get(ch, "nonce"));
    var parts :- AsArray(Get(ch, "parties"));
    var parties :- Collect(parts, AsBytes);
    Ok(Channel(nonce, parties))
  }

  function ParseMetadata(m: JsEntries): Result<MessageMetadata, JsFault> {
    var chans :- AsArray(Get(m, "channels"));
    var channels :- Collect(chans, ParseChannel);
    var nonce :- ToNonce(Get(m, "nonce"));
    var broker :- ToKey(Get(m, "broker"));
    var hash :- ToKey(Get(m, "hash"));
    Ok(MessageMetadata(nonce, broker, hash, channels))
  }

  /** Reads the elements of an array that must all be byte arrays. */
  method JsMapToParties(parts: seq<JsValue>) returns (r: Result<seq<Bytes>, JsFault>)
    ensures r == Collect(parts, AsBytes)
  {
    var parties: seq<Bytes> := [];
    for j := 0 to |parts|
      invariant Collect(parts[..j], AsBytes) == Ok(parties)
    {
      CollectStep(parts, j, AsBytes);
      var part := AsBytes(parts[j]);
      if part.Err? {
        return Err(part.error);
      }
      parties := parties + [part.value];
    }
    assert parts[..|parts|] == parts;
    r := Ok(parties);
  }

  method JsMapToMetadata(m: JsEntries) returns (r: Result<MessageMetadata, JsFault>)
    ensures r == ParseMetadata(m)
  {
    var channels: seq<Channel> := [];
    var chans :- AsArray(Get(m, "channels"));
    for i := 0 to |chans|
      invariant Collect(chans[..i], ParseChannel) == Ok(channels)
    {
      CollectStep(chans, i, ParseChannel);
      var ch :- AsMap(chans[i]);
      var nonce :- AsBytes(Get(ch, "nonce"));
      var parts :- AsArray(Get(ch, "parties"));
      var parties :- JsMapToParties(parts);
      channels := channels + [Channel(nonce, parties)];
    }
    assert chans[..|chans|] == chans;

    var nonce :- ToNonce(Get(m, "nonce"));
    var broker :- ToKey(Get(m, "broker"));
    var hash :- ToKey(Get(m, "hash"));
    r := Ok(MessageMetadata(nonce, broker, hash, channels));
  }

  lemma PartiesIncluded(parts: seq<JsValue>, ps: seq<Bytes>)
    ensures Collect(parts, AsBytes) == Ok(ps) <==> Includes(JsArray(parts), JsArray(PrintParties(ps)))
  {
    CollectOk(parts, AsBytes, ps);
    if Includes(JsArray(parts), JsArray(PrintParties(ps))) {
      forall i | 0 <= i < |parts|
        ensures AsBytes(parts[i]) == Ok(ps[i])
      {
        assert Includes(parts[i], PrintParties(ps)[i]);
      }
    }
  }

  lemma ChannelIncluded(v: JsValue, c: Channel)
    ensures ParseChannel(v) == Ok(c) <==> Includes(v, PrintChannel(c))
  {
    if v.JsMap? {
      var parts := Get(v.entries, "parties");
      if parts.JsArray? {
        PartiesIncluded(parts.items, c.parties);
      }
      var printed := PrintChannel(c).entries;
      if Includes(v, PrintChannel(c)) {
        assert "nonce" in printed && "parties" in printed;
      }
    }
  }

  lemma ChannelsIncluded(chans: seq<JsValue>, cs: seq<Channel>)
    ensures Collect(chans, ParseChannel) == Ok(cs) <==> Includes(JsArray(chans), JsArray(PrintChannels(cs)))
  {
    CollectOk(chans, ParseChannel, cs);
    forall i | 0 <= i < |chans| && i < |cs|
      ensures ParseChannel(chans[i]) == Ok(cs[i]) <==> Includes(chans[i], PrintChannels(cs)[i])
    {
      ChannelIncluded(chans[i], cs[i]);
    }
  }

  /** The four fields of printed metadata, one by one. */
  lemma MetadataIncluded(js: JsEntries, m: MessageMetadata)
    ensures Includes(JsMap(js), JsMap(PrintMetadata(m))) <==>
            && Get(js, "nonce") == Uint8Array(m.nonce)
            && Get(js, "broker") == Uint8Array(m.broker)
            && Get(js, "hash") == Uint8Array(m.hash)
            && Includes(Get(js, "channels"), JsArray(PrintChannels(m.channels)))
  {
    var printed := PrintMetadata(m);
    assert printed.Keys == {"nonce", "broker", "hash", "channels"};
    if Includes(JsMap(js), JsMap(printed)) {
      assert "nonce" in printed && "broker" in printed && "hash" in printed && "channels" in printed;
    }
  }

  /** A map parses to given metadata exactly when it holds what printing the metadata puts there; extra keys are ignored. */
  lemma MetadataParsesExactly(js: JsEntries, m: MessageMetadata)
    ensures ParseMetadata(js) == Ok(m) <==> Includes(JsMap(js), JsMap(PrintMetadata(m)))
  {
    MetadataIncluded(js, m);
    var chans := Get(js, "channels");
    if chans.JsArray? {
      ChannelsIncluded(chans.items, m.channels);
    }
  }

  lemma {:induction false} IncludesItself(v: JsValue)
    ensures Includes(v, v)
    decreases v
  {
    match v
    case JsMap(m) =>
      forall k | k in m
        ensures Includes(m[k], m[k])
      {
        IncludesItself(m[k]);
      }
    case JsArray(items) =>
      forall i | 0 <= i < |items|
        ensures Includes(items[i], items[i])
      {
        IncludesItself(items[i]);
      }
    case _ =>
  }

  /** Printed metadata parses back, also after other keys such as the secret nonce were added. */
  lemma MetadataRoundTrip(m: MessageMetadata, extra: JsEntries)
    requires extra.Keys !! PrintMetadata(m).Keys
    ensures ParseMetadata(PrintMetadata(m) + extra) == Ok(m)
  {
    var printed := PrintMetadata(m);
    IncludesItself(JsMap(printed));
    forall k | k in printed
      ensures k in printed + extra && Includes((printed + extra)[k], printed[k])
    {
    }
    MetadataParsesExactly(printed + extra, m);
  }

  /** The channel as it stands in a value: under "nonce" its nonce, under "parties" an array of its parties. */
  ghost predicate HoldsChannel(v: JsValue, c: Channel) {
    && v.JsMap?
    && Get(v.entries, "nonce") == Uint8Array(c.nonce)
    && var parts := Get(v.entries, "parties");
    && parts.JsArray? && |parts.items| == |c.parties|
    && forall j :: 0 <= j < |c.parties| ==> parts.items[j] == Uint8Array(c.parties[j])
  }

  /** The metadata as it stands in a map: three byte arrays and, under "channels", an array of its channels. */
  ghost predicate HoldsMetadata(js: JsEntries, m: MessageMetadata) {
    && Get(js, "nonce") == Uint8Array(m.nonce)
    && Get(js, "broker") == Uint8Array(m.broker)
    && Get(js, "hash") == Uint8Array(m.hash)
    && var chans := Get(js, "channels");
    && chans.JsArray? && |chans.items| == |m.channels|
    && forall i :: 0 <= i < |m.channels| ==> HoldsChannel(chans.items[i], m.channels[i])
  }

  lemma ChannelHeld(v: JsValue, c: Channel)
    ensures ParseChannel(v) == Ok(c) <==> HoldsChannel(v, c)
  {
    if v.JsMap? && Get(v.entries, "parties").JsArray? {
      CollectOk(Get(v.entries, "parties").items, AsBytes, c.parties);
    }
  }

  /** A map parses to given metadata exactly when it holds its fields under their names. */
  lemma MetadataHeld(js: JsEntries, m: MessageMetadata)
    ensures ParseMetadata(js) == Ok(m) <==> HoldsMetadata(js, m)
  {
    var chans := Get(js, "channels");
    if chans.JsArray? {
      CollectOk(chans.items, ParseChannel, m.channels);
      forall i | 0 <= i < |chans.items| && i < |m.channels|
        ensures ParseChannel(chans.items[i]) == Ok(m.channels[i]) <==> HoldsChannel(chans.items[i], m.channels[i])
      {
        ChannelHeld(chans.items[i], m.channels[i]);
      }
    }
  }

  /** Printed metadata holds the metadata and, at both levels, no other keys. */
  lemma MetadataPrinted(m: MessageMetadata)
    ensures HoldsMetadata(PrintMetadata(m), m)
    ensures PrintMetadata(m).Keys == {"nonce", "broker", "hash", "channels"}
    ensures forall v :: v in PrintMetadata(m)["channels"].items ==> v.entries.Keys == {"nonce", "parties"}
  {
  }

  // --- which fault a map is refused with

  /** What is wrong with a value that should be a byte array, of `size` bytes. */
  ghost function SizeFault(v: JsValue, size: nat): Option<JsFault> {
    if !v.Uint8Array? then Some(NotInstance(v))
    else if |v.data| != size then Some(WrongSize(size))
    else None
  }

  /** What is wrong with a value that should be a channel: the first of map, nonce, array of parties and each party. */
  ghost predicate ChannelFault(v: JsValue, f: JsFault) {
    if !v.JsMap? then f == NotInstance(v)
    else if !Get(v.entries, "nonce").Uint8Array? then f == NotInstance(Get(v.entries, "nonce"))
    else if !Get(v.entries, "parties").JsArray? then f == NotInstance(Get(v.entries, "parties"))
    else
      var items := Get(v.entries, "parties").items;
      exists i :: FirstFails(items, AsBytes, i) && f == NotInstance(items[i])
  }

  lemma ChannelRefused(v: JsValue, f: JsFault)
    ensures ParseChannel(v) == Err(f) <==> ChannelFault(v, f)
  {
    if v.JsMap? && Get(v.entries, "parties").JsArray? {
      CollectFails(Get(v.entries, "parties").items, AsBytes, f);
    }
  }

  /**
   * A map that is no metadata is refused for its channels first, for the first of
   * them that is none, and only then for nonce, broker and hash in this order.
   */
  lemma MetadataRefused(js: JsEntries, f: JsFault)
    ensures ParseMetadata(js) == Err(f) <==>
            var chans := Get(js, "channels");
            if !chans.JsArray? then f == NotInstance(chans)
            else if exists i :: FirstFails(chans.items, ParseChannel, i) then
              exists i :: FirstFails(chans.items, ParseChannel, i) && ChannelFault(chans.items[i], f)
            else if SizeFault(Get(js, "nonce"), 24).Some? then SizeFault(Get(js, "nonce"), 24) == Some(f)
            else if SizeFault(Get(js, "broker"), 32).Some? then SizeFault(Get(js, "broker"), 32) == Some(f)
            else SizeFault(Get(js, "hash"), 32) == Some(f)
  {
    var chans := Get(js, "channels");
    if chans.JsArray? {
      var items := chans.items;
      CollectFails(items, ParseChannel, f);
      forall i | 0 <= i < |items|
        ensures ParseChannel(items[i]) == Err(f) <==> ChannelFault(items[i], f)
      {
        ChannelRefused(items[i], f);
      }
      if Collect(items, ParseChannel).Err? {
        CollectFails(items, ParseChannel, Collect(items, ParseChannel).error);
      } else if i :| FirstFails(items, ParseChannel, i) {
        CollectOk(items, ParseChannel, Collect(items, ParseChannel).value);
      }
    }
  }

  // --- messages

  function PrintEntry(e: MessageEntry): JsValue {
    JsMap(map["key" := Uint8Array(e.key), "value" := Uint8Array(e.value)])
  }

  function PrintEntries(es: seq<MessageEntry>): seq<JsValue> {
    seq(|es|, i requires 0 <= i < |es| => PrintEntry(es[i]))
  }

  function PrintMessage(m: Message): JsEntries {
    map["entries" := JsArray(PrintEntries(m.entries))]
  }

  method MessageToJs(m: Message) returns (r: JsEntries)
    ensures r == PrintMessage(m)
  {
    var entries: seq<JsValue> := [];
    for i := 0 to |m.entries|
      invariant entries == PrintEntries(m.entries[..i])
    {
      var e: JsEntries := map[];
      e := e["key" := Uint8Array(m.entries[i].key)];
      e := e["value" := Uint8Array(m.entries[i].value)];
      assert JsMap(e) == PrintEntry(m.entries[i]);
      entries := entries + [JsMap(e)];
    }
    assert m.entries[..|m.entries|] == m.entries;
    r := map[];
    r := r["entries" := JsArray(entries)];
  }

  function ParseEntry(v: JsValue): Result<MessageEntry, JsFault> {
    var e :- AsMap(v);
    var key :- AsBytes(Get(e, "key"));
    var value :- AsBytes(Get(e, "value"));
    Ok(MessageEntry(key, value, RawData))
  }

  function ParseMessage(m: JsEntries): Result<Message, JsFault> {
    var es :- AsArray(Get(m, "entries"));
    var entries :- Collect(es, ParseEntry);
    Ok(Message(entries))
  }

  method MessageFromJs(m: JsEntries) returns (r: Result<Message, JsFault>)
    ensures r == ParseMessage(m)
  {
    var entries: seq<MessageEntry> := [];
    var es :- AsArray(Get(m, "entries"));
    for i := 0 to |es|
      invariant Collect(es[..i], ParseEntry) == Ok(entries)
    {
      CollectStep(es, i, ParseEntry);
      var e :- AsMap(es[i]);
      var key :- AsBytes(Get(e, "key"));
      var value :- AsBytes(Get(e, "value"));
      entries := entries + [MessageEntry(key, value, RawData)];
    }
    assert es[..|es|] == es;
    r := Ok(Message(entries));
  }

  ghost predicate AllRaw(m: Message) {
    forall i :: 0 <= i < |m.entries| ==> m.entries[i].kind == RawData
  }

  lemma EntryIncluded(v: JsValue, e: MessageEntry)
    ensures ParseEntry(v) == Ok(e) <==> e.kind == RawData && Includes(v, PrintEntry(e))
  {
    var printed := PrintEntry(e).entries;
    assert "key" in printed && "value" in printed;
  }

  /** A map parses to given message exactly when the message is raw data and the map holds its keys and values in order. */
  lemma MessageParsesExactly(js: JsEntries, m: Message)
    ensures ParseMessage(js) == Ok(m) <==> AllRaw(m) && Includes(JsMap(js), JsMap(PrintMessage(m)))
  {
    var es := Get(js, "entries");
    var printed := PrintMessage(m);
    assert "entries" in printed;
    if es.JsArray? {
      CollectOk(es.items, ParseEntry, m.entries);
      forall i | 0 <= i < |es.items| && i < |m.entries|
        ensures ParseEntry(es.items[i]) == Ok(m.entries[i]) <==>
                m.entries[i].kind == RawData && Includes(es.items[i], PrintEntries(m.entries)[i])
      {
        EntryIncluded(es.items[i], m.entries[i]);
      }
    }
  }

  /** The entry as it stands in a value: byte arrays under "key" and "value". */
  ghost predicate HoldsEntry(v: JsValue, e: MessageEntry) {
    v.JsMap? && Get(v.entries, "key") == Uint8Array(e.key) && Get(v.entries, "value") == Uint8Array(e.value)
  }

  /** The message as it stands in a map: under "entries" an array of its entries, without their kinds. */
  ghost predicate HoldsMessage(js: JsEntries, m: Message) {
    var es := Get(js, "entries");
    && es.JsArray? && |es.items| == |m.entries|
    && forall i :: 0 <= i < |m.entries| ==> HoldsEntry(es.items[i], m.entries[i])
  }

  /** A map parses to given message exactly when the message is raw data and the map holds its keys and values. */
  lemma MessageHeld(js: JsEntries, m: Message)
    ensures ParseMessage(js) == Ok(m) <==> AllRaw(m) && HoldsMessage(js, m)
  {
    var es := Get(js, "entries");
    if es.JsArray? {
      CollectOk(es.items, ParseEntry, m.entries);
      forall i | 0 <= i < |es.items| && i < |m.entries|
        ensures ParseEntry(es.items[i]) == Ok(m.entries[i]) <==>
                m.entries[i].kind == RawData && HoldsEntry(es.items[i], m.entries[i])
      {
      }
    }
  }

  /** A printed message holds the message and, at both levels, no other keys. */
  lemma MessagePrinted(m: Message)
    ensures HoldsMessage(PrintMessage(m), m)
    ensures PrintMessage(m).Keys == {"entries"}
    ensures forall v :: v in PrintMessage(m)["entries"].items ==> v.entries.Keys == {"key", "value"}
  {
  }

  /** What is wrong with a value that should be an entry: the first of map, key and value. */
  ghost predicate EntryFault(v: JsValue, f: JsFault) {
    if !v.JsMap? then f == NotInstance(v)
    else if !Get(v.entries, "key").Uint8Array? then f == NotInstance(Get(v.entries, "key"))
    else !Get(v.entries, "value").Uint8Array? && f == NotInstance(Get(v.entries, "value"))
  }

  /** A map that is no message is refused for the first entry that is none. */
  lemma MessageRefused(js: JsEntries, f: JsFault)
    ensures ParseMessage(js) == Err(f) <==>
            var es := Get(js, "entries");
            if !es.JsArray? then f == NotInstance(es)
            else exists i :: FirstFails(es.items, ParseEntry, i) && EntryFault(es.items[i], f)
  {
    var es := Get(js, "entries");
    if es.JsArray? {
      CollectFails(es.items, ParseEntry, f);
    }
  }

  /** The message with every kind reset. */
  function AsRaw(m: Message): Message {
    Message(seq(|m.entries|, i requires 0 <= i < |m.entries| => m.entries[i].(kind := RawData)))
  }

  /** A printed message parses back with only its kinds reset. */
  lemma MessageRoundTripJs(m: Message)
    ensures ParseMessage(PrintMessage(m)) == Ok(AsRaw(m))
  {
    assert PrintEntries(AsRaw(m).entries) == PrintEntries(m.entries);
    IncludesItself(JsMap(PrintMessage(m)));
    MessageParsesExactly(PrintMessage(m), AsRaw(m));
  }

  /** Passing a message through JavaScript leaves its root hash as it was, for all other inputs. */
  lemma RootSurvivesJs(s: Suite, x: RootInput, js: Message)
    requires ParseMessage(PrintMessage(x.message)) == Ok(js)
    ensures Root(s, x.(message := js)) == Root(s, x)
  {
    MessageRoundTripJs(x.message);
    RootIgnoresKinds(s, x.(message := js), x);
  }
}
