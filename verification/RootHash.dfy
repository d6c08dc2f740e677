/**
 * The root hash of a message and its metadata: a two-level tree of digests in
 * which every inner hash absorbs the secret nonce last.
 */
module RootHash {
  import opened Wrappers
  import opened ByteStrings
  import opened Crypto
  import opened Messages

  /** A streaming hasher: it buffers what it absorbs and digests it once, at the end. */
  class Blake2s256 {
    const suite: Suite
    var absorbed: Bytes

    constructor (s: Suite)
      ensures suite == s && absorbed == []
    {
      suite := s;
      absorbed := [];
    }

    method Update(data: Bytes)
      modifies this
      ensures absorbed == old(absorbed) + data
    {
      absorbed := absorbed + data;
    }

    method Finalize() returns (d: Digest)
      ensures d == suite.Hash(absorbed)
    {
      d := suite.Hash(absorbed);
    }
  }

  /** Everything the root hash is computed from. */
  datatype RootInput = RootInput(
    origin: Key,
    publicNonce: Nonce,
    sender: Key,
    broker: Key,
    secretNonce: Nonce,
    recipients: seq<Key>,
    message: Message)

  // --- the flat specification

  function Salted(s: Suite, data: Bytes, nonce: Nonce): Digest {
    s.Hash(data + nonce)
  }

  /** Digests written one after the other. */
  function Flatten(ds: seq<Digest>): (b: Bytes)
    ensures |b| == KEY_SIZE * |ds|
  {
    if ds == [] then [] else Flatten(ds[..|ds| - 1]) + ds[|ds| - 1]
  }

  function SaltAll(s: Suite, items: seq<Bytes>, nonce: Nonce): seq<Digest> {
    seq(|items|, i requires 0 <= i < |items| => Salted(s, items[i], nonce))
  }

  /** What a group hasher absorbs: the digests of its items in order, then the nonce. */
  function Group(s: Suite, items: seq<Bytes>, nonce: Nonce): Bytes {
    Flatten(SaltAll(s, items, nonce)) + nonce
  }

  /** Key and value of every entry, in order. */
  function Fields(entries: seq<MessageEntry>): (fs: seq<Bytes>)
    ensures |fs| == 2 * |entries|
    ensures forall i :: 0 <= i < |entries| ==> fs[2 * i] == entries[i].key && fs[2 * i + 1] == entries[i].value
  {
    if entries == [] then []
    else
      var e := entries[|entries| - 1];
      Fields(entries[..|entries| - 1]) + [e.key, e.value]
  }

  function TopDigests(s: Suite, x: RootInput): seq<Digest> {
    [ Salted(s, x.origin, x.secretNonce),
      Salted(s, x.publicNonce, x.secretNonce),
      Salted(s, x.secretNonce, x.secretNonce),
      Salted(s, x.broker, x.secretNonce),
      Salted(s, x.sender, x.secretNonce),
      s.Hash(Group(s, x.recipients, x.secretNonce)),
      s.Hash(Group(s, Fields(x.message.entries), x.secretNonce)) ]
  }

  function RootPreimage(s: Suite, x: RootInput): Bytes {
    Flatten(TopDigests(s, x))
  }

  function Root(s: Suite, x: RootInput): Digest {
    s.Hash(RootPreimage(s, x))
  }

  lemma FlattenPush(ds: seq<Digest>, d: Digest)
    ensures Flatten(ds + [d]) == Flatten(ds) + d
  {
    assert (ds + [d])[..|ds|] == ds;
  }

  lemma SaltAllPush(s: Suite, items: seq<Bytes>, item: Bytes, nonce: Nonce)
    ensures Flatten(SaltAll(s, items + [item], nonce)) == Flatten(SaltAll(s, items, nonce)) + Salted(s, item, nonce)
  {
    var ds := SaltAll(s, items, nonce);
    assert SaltAll(s, items + [item], nonce) == ds + [Salted(s, item, nonce)];
    FlattenPush(ds, Salted(s, item, nonce));
  }

  lemma FlattenSeven(a: Digest, b: Digest, c: Digest, d: Digest, e: Digest, f: Digest, g: Digest)
    ensures Flatten([a, b, c, d, e, f, g]) == [] + a + b + c + d + e + f + g
  {
    FlattenPush([], a);
    FlattenPush([a], b);
    FlattenPush([a, b], c);
    FlattenPush([a, b, c], d);
    FlattenPush([a, b, c, d], e);
    FlattenPush([a, b, c, d, e], f);
    FlattenPush([a, b, c, d, e, f], g);
    assert [] + [a] == [a];
    assert [a] + [b] == [a, b];
    assert [a, b] + [c] == [a, b, c];
    assert [a, b, c] + [d] == [a, b, c, d];
    assert [a, b, c, d] + [e] == [a, b, c, d, e];
    assert [a, b, c, d, e] + [f] == [a, b, c, d, e, f];
    assert [a, b, c, d, e, f] + [g] == [a, b, c, d, e, f, g];
  }

  /** Block `i` of flattened digests is digest `i`. */
  lemma {:induction false} FlattenBlock(ds: seq<Digest>, i: nat)
    requires i < |ds|
    ensures Flatten(ds)[32 * i..32 * i + 32] == ds[i]
  {
    var n := |ds| - 1;
    if i == n {
    } else {
      FlattenBlock(ds[..n], i);
      assert Flatten(ds)[32 * i..32 * i + 32] == Flatten(ds[..n])[32 * i..32 * i + 32];
    }
  }

  /** A group is 32 bytes for each item, its digest with the nonce, and the nonce once more at the end. */
  lemma GroupLayout(s: Suite, items: seq<Bytes>, nonce: Nonce)
    ensures |Group(s, items, nonce)| == 32 * |items| + 24
    ensures forall i :: 0 <= i < |items| ==> Group(s, items, nonce)[32 * i..32 * i + 32] == s.Hash(items[i] + nonce)
    ensures Group(s, items, nonce)[32 * |items|..] == nonce
  {
    var ds := SaltAll(s, items, nonce);
    forall i | 0 <= i < |items|
      ensures Group(s, items, nonce)[32 * i..32 * i + 32] == s.Hash(items[i] + nonce)
    {
      FlattenBlock(ds, i);
      assert Group(s, items, nonce)[32 * i..32 * i + 32] == Flatten(ds)[32 * i..32 * i + 32];
    }
  }

  /** The root is the digest of seven digests: origin, both nonces, broker, sender, recipients and entries. */
  lemma RootLayout(s: Suite, x: RootInput)
    ensures var n := x.secretNonce;
            && RootPreimage(s, x) ==
               s.Hash(x.origin + n) + s.Hash(x.publicNonce + n) + s.Hash(n + n) + s.Hash(x.broker + n)
               + s.Hash(x.sender + n) + s.Hash(Group(s, x.recipients, n))
               + s.Hash(Group(s, Fields(x.message.entries), n))
            && Root(s, x) == s.Hash(RootPreimage(s, x))
  {
    var n := x.secretNonce;
    var d := TopDigests(s, x);
    FlattenSeven(d[0], d[1], d[2], d[3], d[4], d[5], d[6]);
    assert d == [d[0], d[1], d[2], d[3], d[4], d[5], d[6]];
  }

  // --- the streaming computation

  method HashWithNonce(s: Suite, data: Bytes, nonce: Nonce) returns (d: Digest)
    ensures d == s.Hash(data + nonce)
  {
    var hash := new Blake2s256(s);
    hash.Update(data);
    hash.Update(nonce);
    assert hash.absorbed == data + nonce;
    d := hash.Finalize();
  }

  method HashRecipients(s: Suite, recipients: seq<Key>, nonce: Nonce) returns (hash: Blake2s256)
    ensures fresh(hash) && hash.suite == s && hash.absorbed == Group(s, recipients, nonce)
  {
    hash := new Blake2s256(s);
    for i := 0 to |recipients|
      invariant fresh(hash) && hash.suite == s
      invariant hash.absorbed == Flatten(SaltAll(s, recipients[..i], nonce))
    {
      var d := HashWithNonce(s, recipients[i], nonce);
      hash.Update(d);
      SaltAllPush(s, recipients[..i], recipients[i], nonce);
      assert recipients[..i + 1] == recipients[..i] + [recipients[i]];
    }
    assert recipients[..|recipients|] == recipients;
    hash.Update(nonce);
  }

  method HashEntries(s: Suite, entries: seq<MessageEntry>, nonce: Nonce) returns (hash: Blake2s256)
    ensures fresh(hash) && hash.suite == s && hash.absorbed == Group(s, Fields(entries), nonce)
  {
    hash := new Blake2s256(s);
    for i := 0 to |entries|
      invariant fresh(hash) && hash.suite == s
      invariant hash.absorbed == Flatten(SaltAll(s, Fields(entries[..i]), nonce))
    {
      var key, value := entries[i].key, entries[i].value;
      var keyHash := HashWithNonce(s, key, nonce);
      var valueHash := HashWithNonce(s, value, nonce);
      hash.Update(keyHash);
      hash.Update(valueHash);
      ghost var fs := Fields(entries[..i]);
      SaltAllPush(s, fs, key, nonce);
      SaltAllPush(s, fs + [key], value, nonce);
      assert entries[..i + 1][..i] == entries[..i];
      assert Fields(entries[..i + 1]) == fs + [key] + [value];
    }
    assert entries[..|entries|] == entries;
    hash.Update(nonce);
  }

  /** The hasher returned is not yet finalized; its digest is the root hash. */
  method ComputeRootHash(s: Suite, x: RootInput) returns (hash: Blake2s256)
    ensures fresh(hash) && hash.suite == s
    ensures hash.absorbed == RootPreimage(s, x)
  {
    hash := new Blake2s256(s);
    var originHash := HashWithNonce(s, x.origin, x.secretNonce);
    var publicNonceHash := HashWithNonce(s, x.publicNonce, x.secretNonce);
    var secretNonceHash := HashWithNonce(s, x.secretNonce, x.secretNonce);
    var brokerHash := HashWithNonce(s, x.broker, x.secretNonce);
    var senderHash := HashWithNonce(s, x.sender, x.secretNonce);
    var recipientsHash := HashRecipients(s, x.recipients, x.secretNonce);
    var entriesHash := HashEntries(s, x.message.entries, x.secretNonce);
    hash.Update(originHash);
    hash.Update(publicNonceHash);
    hash.Update(secretNonceHash);
    hash.Update(brokerHash);
    hash.Update(senderHash);
    var d := recipientsHash.Finalize();
    hash.Update(d);
    var e := entriesHash.Finalize();
    hash.Update(e);
    FlattenSeven(originHash, publicNonceHash, secretNonceHash, brokerHash, senderHash, d, e);
  }

  // --- what the root hash binds

  /** The two inputs agree on all that the root hash covers: everything but the kinds of entries. */
  ghost predicate SameContent(x: RootInput, y: RootInput) {
    && x.(message := y.message) == y
    && |x.message.entries| == |y.message.entries|
    && forall i :: 0 <= i < |x.message.entries| ==>
                     && x.message.entries[i].key == y.message.entries[i].key
                     && x.message.entries[i].value == y.message.entries[i].value
  }

  function WithNonce(items: seq<Bytes>, nonce: Nonce): seq<Bytes> {
    seq(|items|, i requires 0 <= i < |items| => items[i] + nonce)
  }

  /** Every byte string that is hashed on the way to the root. */
  function Preimages(s: Suite, x: RootInput): seq<Bytes> {
    [ RootPreimage(s, x),
      x.origin + x.secretNonce,
      x.publicNonce + x.secretNonce,
      x.secretNonce + x.secretNonce,
      x.broker + x.secretNonce,
      x.sender + x.secretNonce,
      Group(s, x.recipients, x.secretNonce),
      Group(s, Fields(x.message.entries), x.secretNonce) ]
    + WithNonce(x.recipients, x.secretNonce)
    + WithNonce(Fields(x.message.entries), x.secretNonce)
  }

  ghost predicate Collision(s: Suite, p: Bytes, q: Bytes) {
    p != q && s.Hash(p) == s.Hash(q)
  }

  /** The first position, if any, at which two different byte strings with one digest are hashed. */
  function FindCollision(s: Suite, ps: seq<Bytes>, qs: seq<Bytes>): (r: Option<(Bytes, Bytes)>)
    ensures r.Some? ==> r.value.0 in ps && r.value.1 in qs && Collision(s, r.value.0, r.value.1)
    ensures r.None? ==> forall i :: 0 <= i < |ps| && i < |qs| ==> !Collision(s, ps[i], qs[i])
  {
    if ps == [] || qs == [] then None
    else if ps[0] != qs[0] && s.Hash(ps[0]) == s.Hash(qs[0]) then Some((ps[0], qs[0]))
    else
      var r := FindCollision(s, ps[1..], qs[1..]);
      r
  }

  /** The collision that two inputs exhibit, searched among what hashing them absorbs. */
  function ExtractCollision(s: Suite, x: RootInput, y: RootInput): Option<(Bytes, Bytes)> {
    FindCollision(s, Preimages(s, x), Preimages(s, y))
  }

  lemma {:induction false} FlattenInjective(ds: seq<Digest>, es: seq<Digest>)
    requires Flatten(ds) == Flatten(es)
    ensures ds == es
  {
    if ds == [] || es == [] {
    } else {
      var m, n := |ds| - 1, |es| - 1;
      SameTails(Flatten(ds[..m]), ds[m], Flatten(es[..n]), es[n]);
      FlattenInjective(ds[..m], es[..n]);
      assert ds == ds[..m] + [ds[m]] && es == es[..n] + [es[n]];
    }
  }

  /** Equal groups hold equal items, as long as no two of their items collide. */
  lemma GroupBinds(s: Suite, xs: seq<Bytes>, n: Nonce, ys: seq<Bytes>, m: Nonce)
    requires Group(s, xs, n) == Group(s, ys, m)
    requires forall i :: 0 <= i < |xs| && i < |ys| ==> !Collision(s, WithNonce(xs, n)[i], WithNonce(ys, m)[i])
    ensures n == m && xs == ys
  {
    var ds, es := SaltAll(s, xs, n), SaltAll(s, ys, m);
    SameTails(Flatten(ds), n, Flatten(es), m);
    FlattenInjective(ds, es);
    forall i | 0 <= i < |xs|
      ensures xs[i] == ys[i]
    {
      assert ds[i] == es[i];
      assert !Collision(s, WithNonce(xs, n)[i], WithNonce(ys, m)[i]);
      SameTails(xs[i], n, ys[i], m);
    }
  }

  /** Fields determine the keys and values of the entries, in order. */
  lemma FieldsAgree(x: RootInput, y: RootInput)
    requires x.(message := y.message) == y
    ensures SameContent(x, y) <==> Fields(x.message.entries) == Fields(y.message.entries)
  {
    var xs, ys := x.message.entries, y.message.entries;
    if Fields(xs) == Fields(ys) {
      forall i | 0 <= i < |xs|
        ensures xs[i].key == ys[i].key && xs[i].value == ys[i].value
      {
        assert Fields(xs)[2 * i] == Fields(ys)[2 * i] && Fields(xs)[2 * i + 1] == Fields(ys)[2 * i + 1];
      }
    }
    if SameContent(x, y) {
      forall j | 0 <= j < |Fields(xs)|
        ensures Fields(xs)[j] == Fields(ys)[j]
      {
        var i := j / 2;
        assert j == 2 * i || j == 2 * i + 1;
        assert xs[i].key == ys[i].key;
      }
    }
  }

  /** Inputs that agree on the covered content have equal roots, whatever the kinds of their entries. */
  lemma RootIgnoresKinds(s: Suite, x: RootInput, y: RootInput)
    requires SameContent(x, y)
    ensures Root(s, x) == Root(s, y)
  {
    FieldsAgree(x, y);
  }

  lemma EqualTops(s: Suite, x: RootInput, y: RootInput)
    requires TopDigests(s, x) == TopDigests(s, y)
    requires ExtractCollision(s, x, y).None?
    ensures x.(message := y.message, recipients := y.recipients) == y
    ensures Group(s, x.recipients, x.secretNonce) == Group(s, y.recipients, y.secretNonce)
    ensures Group(s, Fields(x.message.entries), x.secretNonce) == Group(s, Fields(y.message.entries), y.secretNonce)
  {
    var ps, qs := Preimages(s, x), Preimages(s, y);
    forall k | 1 <= k < 8
      ensures ps[k] == qs[k]
    {
      assert s.Hash(ps[k]) == TopDigests(s, x)[k - 1] && s.Hash(qs[k]) == TopDigests(s, y)[k - 1];
      assert !Collision(s, ps[k], qs[k]);
    }
    assert ps[1] == qs[1] && ps[2] == qs[2] && ps[3] == qs[3] && ps[4] == qs[4] && ps[5] == qs[5];
    assert ps[6] == qs[6] && ps[7] == qs[7];
    SameTails(x.origin, x.secretNonce, y.origin, y.secretNonce);
    SameTails(x.publicNonce, x.secretNonce, y.publicNonce, y.secretNonce);
    SameTails(x.broker, x.secretNonce, y.broker, y.secretNonce);
    SameTails(x.sender, x.secretNonce, y.sender, y.secretNonce);
  }

  lemma EqualRoots(s: Suite, x: RootInput, y: RootInput)
    requires Root(s, x) == Root(s, y)
    requires ExtractCollision(s, x, y).None?
    ensures SameContent(x, y)
  {
    var ps, qs := Preimages(s, x), Preimages(s, y);
    assert !Collision(s, ps[0], qs[0]);
    FlattenInjective(TopDigests(s, x), TopDigests(s, y));
    EqualTops(s, x, y);
    var n := |x.recipients|;
    forall i | 0 <= i < n && i < |y.recipients|
      ensures !Collision(s, WithNonce(x.recipients, x.secretNonce)[i], WithNonce(y.recipients, y.secretNonce)[i])
    {
      assert !Collision(s, ps[8 + i], qs[8 + i]);
    }
    GroupBinds(s, x.recipients, x.secretNonce, y.recipients, y.secretNonce);
    var fx, fy := Fields(x.message.entries), Fields(y.message.entries);
    forall i | 0 <= i < |fx| && i < |fy|
      ensures !Collision(s, WithNonce(fx, x.secretNonce)[i], WithNonce(fy, y.secretNonce)[i])
    {
      assert !Collision(s, ps[8 + n + i], qs[8 + n + i]);
    }
    GroupBinds(s, fx, x.secretNonce, fy, y.secretNonce);
    FieldsAgree(x, y);
  }

  /**
   * The root hash commits to its input.  Either hashing the two inputs exhibits
   * a collision, which is then computed, or their roots are equal exactly when
   * they agree on origin, both nonces, broker, sender, the list of recipients
   * and the list of keys and values.
   */
  lemma RootBinding(s: Suite, x: RootInput, y: RootInput)
    ensures match ExtractCollision(s, x, y)
            case None => Root(s, x) == Root(s, y) <==> SameContent(x, y)
            case Some((p, q)) => p in Preimages(s, x) && q in Preimages(s, y) && Collision(s, p, q)
  {
    if ExtractCollision(s, x, y).None? {
      if Root(s, x) == Root(s, y) {
        EqualRoots(s, x, y);
      }
      if SameContent(x, y) {
        RootIgnoresKinds(s, x, y);
      }
    }
  }

  /**
   * The kind of an entry is not covered: any entry of any message can change its
   * kind and the root stays, so the root alone does not show that a message was
   * not modified.
   */
  lemma AnyKindMayChange(s: Suite, x: RootInput, i: nat, kind: MessageType)
    requires i < |x.message.entries| && x.message.entries[i].kind != kind
    ensures var entries := x.message.entries;
            var changed := x.(message := Message(entries[i := entries[i].(kind := kind)]));
            changed != x && Root(s, changed) == Root(s, x)
  {
    var entries := x.message.entries;
    var changed := x.(message := Message(entries[i := entries[i].(kind := kind)]));
    assert changed.message.entries[i] != entries[i];
    RootIgnoresKinds(s, changed, x);
  }

  /** A concrete message whose only entry changes from raw data to a file unnoticed. */
  lemma KindIsNotCovered(s: Suite, x: RootInput)
    ensures var plain := x.(message := Message([MessageEntry([1], [2], RawData)]));
            var changed := x.(message := Message([MessageEntry([1], [2], File)]));
            plain != changed && Root(s, plain) == Root(s, changed)
  {
    var plain := x.(message := Message([MessageEntry([1], [2], RawData)]));
    AnyKindMayChange(s, plain, 0, File);
    assert [MessageEntry([1], [2], RawData)][0 := MessageEntry([1], [2], File)] == [MessageEntry([1], [2], File)];
  }
}
