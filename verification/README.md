# Nolik message protocol: a verified model

Nolik lets accounts of a Substrate chain exchange encrypted messages. A sender
draws a fresh secret nonce and a fresh "broker" key pair, and builds *metadata*:
a square table with one encrypted channel for each party, in which every party
is listed under the key that channel's owner shares with the broker, together
with a root hash over the origin, nonces, keys, recipients and message entries.
The message itself is encrypted field by field, encoded and submitted with the
metadata to a pallet. The pallet checks the shape of both, stores the bytes
off-chain under a key made of the account and a global counter, and logs an
event. A reader opens the channels of the event that are its own, fetches the
bytes, decodes and decrypts them, and can recompute the root hash.

The project models these pieces and proves, among others:

* a message sent anywhere in any run of the pallet, among arbitrary calls of
  arbitrary accounts, reaches its reader intact at the end of the run
  (`EndToEnd.MessageArrives`);
* every run of the pallet is exactly an append-only log of its admissible calls,
  cut off only at the limit of the 128-bit counter (`Pallet.RunIsLog`);
* the root hash commits to everything it covers, by *extracting* a hash
  collision from any two inputs that disagree and still have equal roots
  (`RootHash.RootBinding`), and each party can confirm the original message and
  nothing else (`Metadata.PartyConfirmsOnlyTheOriginal`);
* honest metadata opens exactly, if and only if keys are separated in that run
  (`Metadata.OpeningExactWhenSeparated`);
* the SCALE and Base64 decoders accept exactly the canonical encodings, and the
  JavaScript parsers exactly the maps that include a printed one.

## Assumptions

Cryptographic primitives are the fields of `Crypto.Suite`, so that theorems hold
for every choice of them. The digest is an arbitrary total function into 32
bytes and is never assumed injective. Sealing and opening are partial; the laws
`Suite.Lawful` say that what is sealed opens to the same bytes and is 16 bytes
longer, and that `Shared(Public(a), b) == Shared(Public(b), a)`. That a wrong
key fails to open is never a law; it is the hypothesis `Metadata.Separated`
about the keys of one run. `Crypto.ToyIsLawful` and `Metadata.ToySeparates` show
that the laws and this hypothesis can hold together. The values drawn at random
by `new_encrypted` are fields of `Metadata.Draft`. The SCALE format follows
Appendix A of the Polkadot Protocol Specification, "SCALE Codec" and "Length and
Compact Encoding"; Base64 follows RFC 4648.

## Where code and documentation differ

The model follows the code.

* The field `hash` is documented as the root hash of all metadata and message
  entries (client/metadata/src/meta.rs:25). It leaves out two things.
  The kinds of entries are skipped (line 126), so changing a kind is not
  noticed: `RootHash.KindIsNotCovered` gives the input, and
  `RootHash.RootBinding` says exactly what the hash does cover.
  The encrypted channels are not hashed either (lines 132-139), so metadata with
  another table has the same hash: `EndToEnd.TablesShareAHash` gives, for any
  draft with recipients, two different tables that the pallet accepts and the
  reader confirms; `Metadata.ChannelsAreNotCovered` says which tables a reader
  does not tell apart, and `Metadata.ReaderConfirmsExactly` says, for any
  metadata with a given hash, which claims a reader confirms.
* `decrypt` is documented as returning the channels that can be decrypted
  (client/metadata/src/meta.rs:150). One channel that opens only by half makes
  the whole call fail: `Metadata.HalfOpenChannelSpoilsTheRest` gives the input,
  `Metadata.DecryptedExactly` the condition. If that channel's nonce opens to
  something other than 24 bytes the code does not return an error but panics
  (line 161); the model returns the fault `NotANonce`.
  `EndToEnd.AcceptedMetadataCanPanic` gives an input that the pallet accepts,
  `Metadata.DecryptPanicsExactly` and `Metadata.DecryptErrsExactly` say exactly
  when the call panics and when it returns an error.
* The JavaScript functions panic likewise, instead of throwing an error, on a
  public nonce or a message nonce of the wrong length
  (client/js-wasm/src/lib.rs:136 and 207); the model returns the fault
  `Panicked`. `JsApi.ParseDraftPanics`, `JsApi.DecryptMetadataExactly` and
  `JsApi.OnMessageExactly` say exactly when.
* A comment shows the storage key as "account/number"
  (pallets/nolik/src/lib.rs:105). The key is the encoded account followed by 16
  little-endian bytes, with no separator (`Pallet.DerivedKeyLayout`).
* The error `UnexpectedNonceType` (client/metadata/src/meta.rs:75-78) cannot
  occur, because the nonce has 24 bytes by its type.
* The limit of the counter is never used as a message number: the last accepted
  message has number 2^128 - 2 (`Pallet.CallIsLogged`).

## Model

| member | source | states |
|---|---|---|
| Wrappers.CollectOk | client/cypher/src/lib.rs:43-61 | Collecting results over a vector succeeds exactly with the pointwise image, in order and of the same length. |
| Wrappers.CollectErr | client/cypher/src/lib.rs:43-61 | A failed collection reports the error of the first failing element. |
| Cypher.BytesRoundTrip | client/cypher/src/lib.rs:79-99 | Bytes encrypted with one end's secret key and the other's public key are opened by both ends, and are 16 bytes longer. |
| Messages.MessageRoundTrip | client/metadata/src/messages.rs:36-56 | A whole encrypted message is opened by either end to the original; encryption keeps entry count, order and kinds and lengthens each key and value by 16. |
| Messages.EncryptMessageExactly | client/metadata/src/messages.rs:36-56 | Encrypting gives a message exactly when it has the original's entries in order, of the same kinds, each key and value sealed under the shared key. |
| Messages.DecryptMessageOpens | client/metadata/src/messages.rs:36-56 | Decrypting gives a message exactly when it has the given entries in order, of the same kinds, each key and value opened under the shared key. |
| Messages.DecryptMessageExactly | client/cypher/macro/src/impl_derive.rs:59-82 | Decrypting any message fails exactly when some field fails to open, with the error naming the tried key; success opens every field in place. |
| Messages.EncryptMessageFails | client/cypher/macro/src/impl_derive.rs:59-82 | Encrypting fails exactly when some field cannot be sealed, with the error naming the recipient. |
| Scale.LengthExact | client/metadata/src/messages.rs:37-56 | Vector lengths round-trip in all four compact modes followed by anything, and no longer form of a length is accepted. |
| Scale.LengthForm | client/metadata/src/messages.rs:37-56 | Which of the four modes each length takes, its size in bytes and the number those bytes spell; no form from 2^32 on. |
| Scale.PairExact | client/metadata/src/messages.rs:42-56 | A struct of exactly coded fields is exactly coded. |
| Scale.VectorExact | client/metadata/src/messages.rs:37-40 | A vector of exactly coded elements is exactly coded, for every length and nesting. |
| Scale.PrefixFree | client/src/main.rs:102-122 | An exact codec is injective and prefix-free. |
| Wire.MessageExact | client/metadata/src/messages.rs:17-56 | Decoding bytes gives a message and a rest exactly when the bytes are the message's encoding followed by the rest. |
| Wire.MessageEncodes | client/metadata/src/messages.rs:36-56 | A message can be encoded exactly when none of its vectors has 2^32 or more elements, and then to a non-empty string. |
| Wire.EntryLayout | client/metadata/src/messages.rs:42-56 | An entry is its length-prefixed key, its length-prefixed value and one kind byte, in this order. |
| Wire.MetadataExact | client/metadata/src/meta.rs:10-33 | Decoding bytes gives metadata and a rest exactly when the bytes are the metadata's encoding followed by the rest. |
| Wire.MetadataLayout | client/metadata/src/meta.rs:19-33 | Encoded metadata is nonce, broker and hash, of 24, 32 and 32 bytes, and then the channels. |
| Wire.ChannelLayout | client/metadata/src/meta.rs:10-17 | An encoded channel is its length-prefixed nonce followed by its vector of parties. |
| RootHash.HashWithNonce | client/metadata/src/meta.rs:143-148 | The digest of the data followed by the nonce. |
| RootHash.HashRecipients | client/metadata/src/meta.rs:117-122 | The recipients loop absorbs the recipients' salted digests in order, then the nonce. |
| RootHash.HashEntries | client/metadata/src/meta.rs:124-131 | The entries loop absorbs the salted digests of each key and value in order, then the nonce. |
| RootHash.GroupLayout | client/metadata/src/meta.rs:117-131 | What a group hasher absorbs, byte range by byte range: the digest of each item with the nonce, and the 24-byte nonce last. |
| RootHash.ComputeRootHash | client/metadata/src/meta.rs:100-141 | The streaming hasher ends up having absorbed the flat two-level preimage. |
| RootHash.RootLayout | client/metadata/src/meta.rs:109-140 | The root is the digest of seven digests: origin, public nonce, secret nonce, broker, sender, recipients and entries, the first five each hashed with the secret nonce. |
| RootHash.RootBinding | client/metadata/src/meta.rs:100-148 | For any two inputs, either a computed pair of different hashed byte strings has one digest, or roots are equal exactly when origin, nonces, broker, sender, recipients and ordered keys and values agree. |
| RootHash.RootIgnoresKinds | client/metadata/src/meta.rs:124-131 | Inputs that agree on the covered content have equal roots, whatever the kinds. |
| RootHash.AnyKindMayChange | client/metadata/src/meta.rs:126 | Changing the kind of any entry of any message changes the input but not its root. |
| RootHash.KindIsNotCovered | client/metadata/src/meta.rs:126 | Two messages that differ in a kind have one root. |
| RootHash.FindCollision | client/metadata/src/meta.rs:100-148 | The search returns a genuine collision of hashed strings, or there is none at any aligned position. |
| Metadata.NewEncrypted | client/metadata/src/meta.rs:48-97 | Success gives the square table, root hash and keys of the draft and returns the secret nonce; failure names the first party whose channel cannot be sealed. |
| Metadata.HonestLayout | client/metadata/src/meta.rs:56-94 | The metadata from the primitives: header, hash of the seven digests, and rows of the sender first and then each recipient, with the secret nonce under the public nonce and every party under the secret nonce. |
| Metadata.HonestIsUnique | client/metadata/src/meta.rs:59-72 | A draft determines its metadata. |
| Metadata.Decrypt | client/metadata/src/meta.rs:151-178 | The scanning loop computes the filter and map over the channels, or the first fault. |
| Metadata.DecryptedExactly | client/metadata/src/meta.rs:151-178 | For any metadata: success exactly when every channel whose nonce opens opens fully, giving those channels as an order-preserving subsequence with party counts kept; else the first half-open channel decides the failure, a panic if its nonce opens to other than 24 bytes and an error otherwise. |
| Metadata.DecryptPanicsExactly | client/metadata/src/meta.rs:159-166 | Reading panics, on given bytes, exactly when they are not 24 and are what the nonce of the first half-open channel opens to. |
| Metadata.DecryptErrsExactly | client/metadata/src/meta.rs:168-174 | Reading returns an error exactly when the nonce of the first half-open channel opens to 24 bytes, and the error names the broker. |
| Metadata.HalfOpenChannelSpoilsTheRest | client/metadata/src/meta.rs:167-174 | Metadata with a fully opening channel whose decryption fails because of a later one. |
| EndToEnd.AcceptedMetadataCanPanic | client/metadata/src/meta.rs:159-161 | Metadata that the pallet accepts and on which reading panics. |
| Metadata.OpeningExactWhenSeparated | client/metadata/src/meta.rs:59-72 | Honest metadata opens to as many channels as the reader's key has occurrences among the parties, none for an outsider, each with secret nonce and ordered party list and all else unchanged, if and only if keys are separated. |
| Metadata.EveryPartyConfirms | client/metadata/src/meta.rs:48-97 | Any listed party recomputes exactly the metadata's hash from what it opens, the origin and the original message. |
| Metadata.PartyConfirmsOnlyTheOriginal | client/metadata/src/meta.rs:100-148 | A party confirms a claimed origin and message exactly when they are the original ones up to kinds, or a collision is computed. |
| Metadata.ReadersAgree | client/metadata/src/meta.rs:24-26 | Readers of any two metadata with one hash who confirm their claims agree on the whole content, or a collision is computed. |
| Metadata.ChannelsAreNotCovered | client/metadata/src/meta.rs:100-141 | Under an honest header, any table of rows of the reader and channels that stay shut for it, with one row at least, opens to a copy for each such row and confirms the original. |
| Metadata.ReaderConfirmsExactly | client/metadata/src/meta.rs:24-26 | From any metadata with the hash of a draft, a reader confirms a claim exactly when what it recovers, with the claim, has the draft's content, or a collision is computed. |
| EndToEnd.ReplacedRowsGoUnnoticed | pallets/nolik/src/lib.rs:110-133 | Exchanging all rows but the reader's for rows that stay shut keeps the hash, what the reader sees and what it confirms, and the pallet accepts the table if the shape is kept. |
| EndToEnd.TablesShareAHash | client/metadata/src/meta.rs:132-139 | For any draft with recipients, two different accepted tables under one hash that the reader confirms alike. |
| Pallet.CheckMessage | pallets/nolik/src/lib.rs:110-133 | Accepts exactly a non-empty message with a square table, and reports a message fault ahead of a metadata fault. |
| Pallet.DerivedKeyLayout | pallets/nolik/src/lib.rs:104-107 | The key is the encoded account and 16 bytes that spell the counter, low byte first, with nothing between. |
| Pallet.DerivedKeyInjective | pallets/nolik/src/lib.rs:104-107 | Keys are equal exactly when encoded accounts and counters are, for encodings of any length. |
| Pallet.DerivedKeyDetermines | pallets/nolik/src/lib.rs:51-56 | With an injective account encoding the key determines account and counter. |
| Pallet.NolikPallet.Send | pallets/nolik/src/lib.rs:73-99 | An accepted call adds one to the counter, stores the message under the account's key and appends the event; a refused one changes nothing; the invariant is kept and no stored entry is overwritten. |
| Pallet.RefusalsExactly | pallets/nolik/src/lib.rs:78-86 | Which error each refused call gets: bad origin for any unsigned call, then message, then metadata, and the overflow only for an admissible call when the next counter does not fit in 128 bits. |
| Pallet.OverflowingAdd | pallets/nolik/src/lib.rs:82 | The wrapped 128-bit sum and whether it wrapped. |
| Pallet.StepKeepsWellFormed | pallets/nolik/src/lib.rs:88-96 | A call keeps counter, event numbers and store keys in step and never overwrites an entry. |
| Pallet.RunIsLog | pallets/nolik/src/lib.rs:73-99 | After any run the counter is the number of events, event i carries number i of the i-th accepted call, and the store holds exactly the accepted messages under the event keys, up to the counter limit. |
| Pallet.RunKeepsWellFormed | pallets/nolik/src/lib.rs:73-99 | Along any run from a valid state the invariant holds, the event log only grows and stored entries stay. |
| Pallet.EventKeysDiffer | pallets/nolik/src/lib.rs:88-96 | All event keys of a reachable state differ. |
| Pallet.CallIsLogged | pallets/nolik/src/lib.rs:73-99 | An admissible call anywhere in a run is logged exactly when the counter is not full, and its event and message are there at the end; when full, nothing changes. |
| EndToEnd.ProducerMeetsValidator | pallets/nolik/src/lib.rs:110-133 | A signed call with honest metadata, for any recipients, and a non-empty message, as every encoded message is, is refused only when the counter is full. |
| EndToEnd.PayloadExactly | client/src/main.rs:98-102 | A sender submits given bytes exactly when they encode the message with every field sealed under the secret nonce and the key of the two ends. |
| EndToEnd.FetchAndOpenExactly | client/src/main.rs:110-124 | A reader gets a message exactly when the metadata reads, its first channel holds a nonce, and the stored bytes decode to fields that open to the message. |
| EndToEnd.StoredMessageOpens | client/src/main.rs:110-124 | From an event and the stored payload, receiver and sender each recover exactly the drafted message. |
| EndToEnd.MessageArrives | client/src/main.rs:90-124 | In any run, a call that sends a draft is logged exactly when the counter is not full, and at the end its event leads both ends to exactly the drafted message, which the receiver confirms by the root hash. |
| JsTree.MetadataToJsMap | client/js-wasm/src/lib.rs:31-60 | The nested printing loops build the printed map. |
| JsTree.JsMapToMetadata | client/js-wasm/src/lib.rs:62-85 | The nested parsing loops compute the parse, with the first fault in reading order. |
| JsTree.MetadataParsesExactly | client/js-wasm/src/lib.rs:62-85 | A map parses to given metadata exactly when it includes the printed map. |
| JsTree.MetadataHeld | client/js-wasm/src/lib.rs:62-85 | A map parses to given metadata exactly when it holds each field and each channel's nonce and parties under their names. |
| JsTree.MetadataPrinted | client/js-wasm/src/lib.rs:31-60 | A printed map holds the metadata under these names and, at both levels, no other keys. |
| JsTree.MetadataRefused | client/js-wasm/src/lib.rs:62-85 | Which fault a map is refused with: the first bad channel in order, then nonce, broker and hash. |
| JsTree.MetadataRoundTrip | client/js-wasm/src/lib.rs:148-151 | Printed metadata parses back, also with further keys such as the secret nonce added. |
| JsTree.MessageToJs | client/js-wasm/src/lib.rs:103-115 | The printing loop builds the printed message. |
| JsTree.MessageFromJs | client/js-wasm/src/lib.rs:87-101 | The parsing loop computes the parse, with the first fault in reading order. |
| JsTree.MessageParsesExactly | client/js-wasm/src/lib.rs:87-101 | A map parses to given message exactly when the message is raw data and the map includes its printed form. |
| JsTree.MessageHeld | client/js-wasm/src/lib.rs:87-101 | A map parses to given message exactly when the message is raw data and the map holds its keys and values under their names. |
| JsTree.MessagePrinted | client/js-wasm/src/lib.rs:103-115 | A printed map holds the message under these names and, at both levels, no other keys. |
| JsTree.MessageRefused | client/js-wasm/src/lib.rs:87-101 | Which fault a map is refused with: that of the first bad entry. |
| JsTree.MessageRoundTripJs | client/js-wasm/src/lib.rs:87-115 | Printing and parsing a message resets its kinds and nothing else. |
| JsTree.RootSurvivesJs | client/js-wasm/src/lib.rs:87-115 | A message that went through JavaScript has the root hash of the original, for all other inputs. |
| JsApi.NewEncryptedMetadata | client/js-wasm/src/lib.rs:118-154 | Argument faults in reading order; otherwise the printed honest metadata with the secret nonce beside it, or the cipher error of the first party whose channel cannot be sealed. |
| JsApi.ParseDraftExactly | client/js-wasm/src/lib.rs:127-145 | The arguments give a draft exactly when keys and nonce have the right sizes and are its fields, recipients is the array of its keys, and the message map includes its printed raw message. |
| JsApi.ParseDraftPanics | client/js-wasm/src/lib.rs:127-137 | Building metadata panics exactly when recipients and origin are well-formed and the public nonce has the wrong size. |
| JsApi.ParseDraftRefused | client/js-wasm/src/lib.rs:127-145 | Which fault arguments are refused with: the first bad recipient, the origin, the nonce, the sender, the message. |
| JsApi.DecryptMetadataExactly | client/js-wasm/src/lib.rs:157-166 | For any map: a result exactly when it includes printed metadata that the key can read, and a panic exactly when reading that metadata panics. |
| JsApi.DecryptMetadataRefused | client/js-wasm/src/lib.rs:157-166 | Which fault a map is refused with: what it holds, the key's size, what the key opens. |
| JsApi.ReaderSeesExactly | client/js-wasm/src/lib.rs:157-166 | Decrypting the map a sender got, extra key included, prints exactly the reader's own channels. |
| JsApi.OnMessageExactly | client/js-wasm/src/lib.rs:195-219 | For any map: a result exactly when it includes a printed raw message, sizes are right and the cipher succeeds on it, and a panic exactly when it parses and the nonce has the wrong size. |
| JsApi.OnMessageEncrypts | client/js-wasm/src/lib.rs:211-213 | Encrypting a map gives another exactly when the map holds a raw message, sizes are right and the result prints that message with every key and value sealed under the shared key. |
| JsApi.OnMessageDecrypts | client/js-wasm/src/lib.rs:214-215 | Decrypting a map, likewise, with every key and value opened under the shared key. |
| JsApi.OnMessageRefused | client/js-wasm/src/lib.rs:195-219 | Which fault a map is refused with: what it holds, the nonce's size, the keys' sizes, a field that cannot be sealed or opened. |
| JsApi.EncryptedMapDecrypts | client/js-wasm/src/lib.rs:195-239 | A map encrypted by one end prints the sealed message and decrypts at either end to the printed form of its message. |
| JsApi.ExchangeInJs | client/js-wasm/tests/www/index.js:18-26 | From the sender's printed metadata and encrypted map, the receiver takes the nonce of the first channel it opens and decrypts to exactly the printed message. |
| Base64.GroupIsOneNumber | client/metadata/src/messages.rs:58-64 | Three bytes and their four symbol values are the same 24-bit number, most significant part first. |
| Base64.Alphabet | client/metadata/src/messages.rs:58-64 | The 64 symbols in the order of their values. |
| Base64.EncodedLength | client/metadata/src/messages.rs:58-64 | Every three bytes, or fewer at the end, take four symbols. |
| Base64.Padding | client/metadata/src/messages.rs:58-64 | The text ends in two '=' when one byte is over, in one when two are, and holds no other. |
| Base64.VectorValue | client/metadata/src/messages.rs:58-64 | The text of the value that the client's message carries. |
| Base64.DecodesExactly | client/metadata/src/messages.rs:58-77 | A string decodes to given bytes exactly when it is their canonical padded encoding. |

## Left out

- Node, CLI, RPC, chain specification, runtime configuration, benchmarks: framework wiring without a local algorithm.
- Network submission and event watching in the client: only the order of its calls is kept, as `FetchAndOpen` and `MessageArrives`.
- The C interface and JSON documents of client/metadata/src/lib.rs: raw pointers and library serialization; only the Base64 text of fields is modelled.
- The field-by-field conversion of metadata in client/src/lib.rs: an isomorphism that would only add easy members.
- Internals of the box cipher, the key agreement, the digest and random generation: parameters, as described above.
- Forks, block weights, fees and the moment at which the off-chain overlay is persisted: the store is a map and the events of all blocks form one log.
- Expansion of tokens by the derive macro: modelled is the code it generates for messages and entries.
- Identity of JavaScript objects: maps and arrays are values, since no function shares one and changes it afterwards; keys that are not strings are not modelled.
- Causes of SCALE and Base64 decoding errors: a malformed input gives one failure value.
- Availability of memory: vectors below 2^32 elements are taken to fit.
