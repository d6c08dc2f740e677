/**
 * The part of the SCALE codec that messages, metadata and storage keys use:
 * compact lengths, fixed byte arrays, vectors and structs (Polkadot Protocol
 * Specification, Appendix A, "SCALE Codec" and "Length and Compact Encoding").
 * Encoding gives None where the implementation stops: at a vector with 2^32 or
 * more elements.  Decoding gives Fail on any malformed input.
 */
module Scale {
  import opened Wrappers
  import opened ByteStrings

  datatype Decoded<+T> = Done(value: T, rest: Bytes) | Fail

  datatype Codec<!T> = Codec(enc: T -> Option<Bytes>, dec: Bytes -> Decoded<T>)

  /** Decoding `b` gives `v` and leaves `rest` exactly when `b` is the encoding of `v` followed by `rest`. */
  ghost predicate Inverse<T>(c: Codec<T>, v: T, b: Bytes, rest: Bytes) {
    c.dec(b) == Done(v, rest) <==> c.enc(v).Some? && b == c.enc(v).value + rest
  }

  ghost predicate Exact<T(!new)>(c: Codec<T>) {
    forall v, b, rest :: Inverse(c, v, b, rest)
  }

  /** An exact codec reads back what it wrote, whatever follows. */
  lemma ReadsBack<T(!new)>(c: Codec<T>, v: T, bs: Bytes, rest: Bytes)
    requires Exact(c) && c.enc(v) == Some(bs)
    ensures c.dec(bs + rest) == Done(v, rest)
  {
    assert Inverse(c, v, bs + rest, rest);
  }

  /** An exact codec is injective and prefix-free: followed by anything, two encodings differ. */
  lemma PrefixFree<T(!new)>(c: Codec<T>, v: T, w: T, x: Bytes, y: Bytes)
    requires Exact(c) && c.enc(v).Some? && c.enc(w).Some?
    requires c.enc(v).value + x == c.enc(w).value + y
    ensures v == w && x == y
  {
    ReadsBack(c, v, c.enc(v).value, x);
    ReadsBack(c, w, c.enc(w).value, y);
  }

  // --- compact lengths

  const COMPACT_LIMIT: nat := 0x1_0000_0000

  /** A length in the shortest of the four modes named by the low two bits. */
  function EncodeLength(n: nat): Option<Bytes> {
    if n < 0x40 then Some([4 * n])
    else if n < 0x4000 then Some(LittleEndian(4 * n + 1, 2))
    else if n < 0x4000_0000 then Some(LittleEndian(4 * n + 2, 4))
    else if n < COMPACT_LIMIT then Some([3] + LittleEndian(n, 4))
    else None
  }

  /** Accepts each length in its shortest mode only. */
  function DecodeLength(b: Bytes): Decoded<nat> {
    if b == [] then Fail
    else if b[0] % 4 == 0 then Done(b[0] / 4, b[1..])
    else if b[0] % 4 == 1 then
      if |b| < 2 then Fail
      else
        var x := FromLittleEndian(b[..2]) / 4;
        if 0x3F < x <= 0x3FFF then Done(x, b[2..]) else Fail
    else if b[0] % 4 == 2 then
      if |b| < 4 then Fail
      else
        var x := FromLittleEndian(b[..4]) / 4;
        if 0x3FFF < x <= 0x3FFF_FFFF then Done(x, b[4..]) else Fail
    else if b[0] / 4 == 0 then
      if |b| < 5 then Fail
      else
        var x := FromLittleEndian(b[1..5]);
        if x > 0x3FFF_FFFF then Done(x, b[5..]) else Fail
    else Fail
  }

  const LengthCodec: Codec<nat> := Codec(n => EncodeLength(n), b => DecodeLength(b))

  /** The low two bits of a length name its mode; the rest is the length. */
  lemma LowBits(n: nat, tag: nat)
    requires tag < 4
    ensures (4 * n + tag) % 256 % 4 == tag && (4 * n + tag) / 4 == n
  {
    var x := 4 * n + tag;
    assert x == 256 * (x / 256) + x % 256;
  }

  lemma ShortLengthReads(n: nat, rest: Bytes)
    requires 0x40 <= n < 0x4000
    ensures DecodeLength(LittleEndian(4 * n + 1, 2) + rest) == Done(n, rest)
  {
    var bs := LittleEndian(4 * n + 1, 2);
    LowBits(n, 1);
    Powers();
    LittleEndianReads(4 * n + 1, 2);
    assert (bs + rest)[..2] == bs && (bs + rest)[2..] == rest;
  }

  lemma LongLengthReads(n: nat, rest: Bytes)
    requires 0x4000 <= n < 0x4000_0000
    ensures DecodeLength(LittleEndian(4 * n + 2, 4) + rest) == Done(n, rest)
  {
    var bs := LittleEndian(4 * n + 2, 4);
    LowBits(n, 2);
    Powers();
    LittleEndianReads(4 * n + 2, 4);
    assert (bs + rest)[..4] == bs && (bs + rest)[4..] == rest;
  }

  lemma LengthReads(n: nat, rest: Bytes)
    requires n < COMPACT_LIMIT
    ensures DecodeLength(EncodeLength(n).value + rest) == Done(n, rest)
  {
    if n < 0x40 {
    } else if n < 0x4000 {
      ShortLengthReads(n, rest);
    } else if n < 0x4000_0000 {
      LongLengthReads(n, rest);
    } else {
      Powers();
      LittleEndianReads(n, 4);
      var bs := LittleEndian(n, 4);
      assert ([3] + bs + rest)[1..5] == bs && ([3] + bs + rest)[5..] == rest;
    }
  }

  /** The first byte of a little-endian integer holds its low bits. */
  lemma LowByte(bs: Bytes, x: nat)
    requires bs != [] && x == FromLittleEndian(bs) / 4
    ensures FromLittleEndian(bs) == 4 * x + bs[0] % 4
  {
    var q := bs[0] / 4 + 64 * FromLittleEndian(bs[1..]);
    assert FromLittleEndian(bs) == 4 * q + bs[0] % 4;
    LowBits(q, bs[0] % 4);
  }

  /** A length read from the first `k` bytes is written back to them. */
  lemma ModeWrites(b: Bytes, k: nat, x: nat)
    requires 0 < k <= |b| && x == FromLittleEndian(b[..k]) / 4
    ensures b == LittleEndian(4 * x + b[0] % 4, k) + b[k..]
  {
    LowByte(b[..k], x);
    LittleEndianWrites(b[..k]);
    assert b == b[..k] + b[k..];
  }

  lemma BigLengthWrites(b: Bytes)
    requires |b| >= 5 && b[0] == 3
    ensures FromLittleEndian(b[1..5]) < COMPACT_LIMIT
    ensures b == [3] + LittleEndian(FromLittleEndian(b[1..5]), 4) + b[5..]
  {
    Powers();
    LittleEndianWrites(b[1..5]);
    assert b == [3] + b[1..5] + b[5..];
  }

  lemma LengthWrites(n: nat, b: Bytes, rest: Bytes)
    requires DecodeLength(b) == Done(n, rest)
    ensures n < COMPACT_LIMIT && b == EncodeLength(n).value + rest
  {
    var mode := b[0] % 4;
    if mode == 0 {
      assert b == [b[0]] + b[1..];
    } else if mode == 1 {
      assert 0x3F < n <= 0x3FFF && rest == b[2..];
      ModeWrites(b, 2, n);
    } else if mode == 2 {
      assert 0x3FFF < n <= 0x3FFF_FFFF && rest == b[4..];
      ModeWrites(b, 4, n);
    } else {
      assert b[0] == 3 && n > 0x3FFF_FFFF && rest == b[5..];
      BigLengthWrites(b);
    }
  }

  /** Compact lengths round-trip in all four modes, and no other form is accepted. */
  lemma LengthExact()
    ensures Exact(LengthCodec)
  {
    forall n: nat, b: Bytes, rest: Bytes
      ensures Inverse(LengthCodec, n, b, rest)
    {
      if LengthCodec.dec(b) == Done(n, rest) {
        LengthWrites(n, b, rest);
      }
      if n < COMPACT_LIMIT && b == EncodeLength(n).value + rest {
        LengthReads(n, rest);
      }
    }
  }

  /**
   * The form of every length: below 2^6, 2^14 and 2^30 the little-endian number
   * four times the length plus the mode 0, 1 or 2, in 1, 2 or 4 bytes; below 2^32
   * the byte 3 and the length in 4 bytes; and nothing from there on.
   */
  lemma LengthForm(n: nat)
    ensures EncodeLength(n).Some? <==> n < 0x1_0000_0000
    ensures n < 0x1_0000_0000 ==>
              var b := EncodeLength(n).value;
              if n < 0x40 then |b| == 1 && FromLittleEndian(b) == 4 * n
              else if n < 0x4000 then |b| == 2 && FromLittleEndian(b) == 4 * n + 1
              else if n < 0x4000_0000 then |b| == 4 && FromLittleEndian(b) == 4 * n + 2
              else |b| == 5 && b[0] == 3 && FromLittleEndian(b[1..]) == n
  {
    Powers();
    if n < 0x40 {
      LittleEndianReads(4 * n, 1);
      assert LittleEndian(4 * n, 1) == [4 * n];
    } else if n < 0x4000 {
      LittleEndianReads(4 * n + 1, 2);
    } else if n < 0x4000_0000 {
      LittleEndianReads(4 * n + 2, 4);
    } else if n < 0x1_0000_0000 {
      LittleEndianReads(n, 4);
      assert ([3] + LittleEndian(n, 4))[1..] == LittleEndian(n, 4);
    }
  }

  /** Published lengths in each of the four modes. */
  lemma LengthVectors()
    ensures EncodeLength(42) == Some([0xA8])
    ensures EncodeLength(69) == Some([0x15, 0x01])
    ensures EncodeLength(65535) == Some([0xFE, 0xFF, 0x03, 0x00])
    ensures EncodeLength(0x4000_0000) == Some([0x03, 0x00, 0x00, 0x00, 0x40])
  {
    assert LittleEndian(1, 1) == [1];
    assert LittleEndian(4 * 69 + 1, 2) == [0x15, 0x01];
    assert LittleEndian(3, 2) == [3, 0];
    assert LittleEndian(4 * 65535 + 2, 4) == [0xFE, 0xFF] + LittleEndian(3, 2) == [0xFE, 0xFF, 0x03, 0x00];
    assert LittleEndian(0x4000, 2) == [0, 0x40];
    assert LittleEndian(0x4000_0000, 4) == [0, 0] + LittleEndian(0x4000, 2) == [0, 0, 0, 0x40];
    assert [0x03] + [0, 0, 0, 0x40] == [0x03, 0x00, 0x00, 0x00, 0x40];
  }

  // --- fixed arrays

  const ByteCodec: Codec<Byte> := Codec(x => Some([x]), b => if b == [] then Fail else Done(b[0], b[1..]))

  function DecodeNonce(b: Bytes): Decoded<Nonce> {
    if |b| < NONCE_SIZE then Fail else Done(b[..NONCE_SIZE], b[NONCE_SIZE..])
  }

  const NonceCodec: Codec<Nonce> := Codec((x: Nonce) => Some(x), b => DecodeNonce(b))

  function DecodeKey(b: Bytes): Decoded<Key> {
    if |b| < KEY_SIZE then Fail else Done(b[..KEY_SIZE], b[KEY_SIZE..])
  }

  const KeyCodec: Codec<Key> := Codec((x: Key) => Some(x), b => DecodeKey(b))

  lemma ArraysExact()
    ensures Exact(ByteCodec) && Exact(NonceCodec) && Exact(KeyCodec)
  {
    forall v: Byte, b: Bytes, rest: Bytes
      ensures Inverse(ByteCodec, v, b, rest)
    {
      if b != [] {
        assert b == [b[0]] + b[1..];
      }
    }
    forall v: Nonce, b: Bytes, rest: Bytes
      ensures Inverse(NonceCodec, v, b, rest)
    {
      if |b| >= NONCE_SIZE {
        assert b == b[..NONCE_SIZE] + b[NONCE_SIZE..];
      }
    }
    forall v: Key, b: Bytes, rest: Bytes
      ensures Inverse(KeyCodec, v, b, rest)
    {
      if |b| >= KEY_SIZE {
        assert b == b[..KEY_SIZE] + b[KEY_SIZE..];
      }
    }
  }

  // --- structs, as nested pairs of their fields in order

  function Append(x: Option<Bytes>, y: Option<Bytes>): Option<Bytes> {
    if x.Some? && y.Some? then Some(x.value + y.value) else None
  }

  function Pair<A, B>(a: Codec<A>, b: Codec<B>): Codec<(A, B)> {
    Codec((v: (A, B)) => Append(a.enc(v.0), b.enc(v.1)),
          x => match a.dec(x)
            case Fail => Fail
            case Done(v, y) =>
              match b.dec(y)
              case Fail => Fail
              case Done(w, rest) => Done((v, w), rest))
  }

  lemma AppendAssociates(x: Option<Bytes>, y: Option<Bytes>, z: Option<Bytes>)
    ensures Append(Append(x, y), z) == Append(x, Append(y, z))
  {
    if x.Some? && y.Some? && z.Some? {
      assert x.value + y.value + z.value == x.value + (y.value + z.value);
    }
  }

  lemma PairExact<A(!new), B(!new)>(a: Codec<A>, b: Codec<B>)
    requires Exact(a) && Exact(b)
    ensures Exact(Pair(a, b))
  {
    var c := Pair(a, b);
    forall v: (A, B), x: Bytes, rest: Bytes
      ensures Inverse(c, v, x, rest)
    {
      if c.dec(x) == Done(v, rest) {
        var y := a.dec(x).rest;
        assert Inverse(a, v.0, x, y) && Inverse(b, v.1, y, rest);
        assert x == a.enc(v.0).value + b.enc(v.1).value + rest;
      }
      if c.enc(v).Some? && x == c.enc(v).value + rest {
        var y := b.enc(v.1).value + rest;
        assert x == a.enc(v.0).value + y;
        assert Inverse(a, v.0, x, y) && Inverse(b, v.1, y, rest);
      }
    }
  }

  /** A codec carried over by a bijection, as from a tuple to a struct. */
  function Mapped<A, B>(c: Codec<A>, make: A -> B, parts: B -> A): Codec<B> {
    Codec(v => c.enc(parts(v)),
          b => match c.dec(b) case Fail => Fail case Done(v, rest) => Done(make(v), rest))
  }

  lemma MappedExact<A(!new), B(!new)>(c: Codec<A>, make: A -> B, parts: B -> A)
    requires Exact(c)
    requires forall v :: parts(make(v)) == v
    requires forall w :: make(parts(w)) == w
    ensures Exact(Mapped(c, make, parts))
  {
    var m := Mapped(c, make, parts);
    forall w: B, b: Bytes, rest: Bytes
      ensures Inverse(m, w, b, rest)
    {
      assert Inverse(c, parts(w), b, rest);
      if c.dec(b).Done? {
        assert parts(make(c.dec(b).value)) == c.dec(b).value;
      }
    }
  }

  // --- vectors

  function EncodeItems<T>(c: Codec<T>, xs: seq<T>): Option<Bytes> {
    if xs == [] then Some([]) else Append(c.enc(xs[0]), EncodeItems(c, xs[1..]))
  }

  function DecodeItems<T>(c: Codec<T>, n: nat, b: Bytes): Decoded<seq<T>> {
    if n == 0 then Done([], b)
    else
      match c.dec(b)
      case Fail => Fail
      case Done(x, y) =>
        match DecodeItems(c, n - 1, y)
        case Fail => Fail
        case Done(xs, rest) => Done([x] + xs, rest)
  }

  lemma {:induction false} ItemsRead<T(!new)>(c: Codec<T>, xs: seq<T>, rest: Bytes)
    requires Exact(c) && EncodeItems(c, xs).Some?
    ensures DecodeItems(c, |xs|, EncodeItems(c, xs).value + rest) == Done(xs, rest)
  {
    if xs == [] {
      assert EncodeItems(c, xs).value + rest == rest;
    } else {
      var y := EncodeItems(c, xs[1..]).value + rest;
      assert EncodeItems(c, xs).value + rest == c.enc(xs[0]).value + y;
      assert Inverse(c, xs[0], EncodeItems(c, xs).value + rest, y);
      ItemsRead(c, xs[1..], rest);
      assert xs == [xs[0]] + xs[1..];
    }
  }

  lemma {:induction false} ItemsWrite<T(!new)>(c: Codec<T>, n: nat, b: Bytes, xs: seq<T>, rest: Bytes)
    requires Exact(c) && DecodeItems(c, n, b) == Done(xs, rest)
    ensures |xs| == n && EncodeItems(c, xs).Some? && b == EncodeItems(c, xs).value + rest
  {
    if n == 0 {
    } else {
      var x, y := c.dec(b).value, c.dec(b).rest;
      assert Inverse(c, x, b, y);
      ItemsWrite(c, n - 1, y, xs[1..], rest);
      assert b == c.enc(x).value + EncodeItems(c, xs[1..]).value + rest;
    }
  }

  /** The number of elements under one codec, then the elements under another. */
  function Counted<T>(counts: Codec<nat>, c: Codec<T>): Codec<seq<T>> {
    Codec((xs: seq<T>) => Append(counts.enc(|xs|), EncodeItems(c, xs)),
          b => match counts.dec(b)
            case Fail => Fail
            case Done(n, y) => DecodeItems(c, n, y))
  }

  lemma CountedWrites<T(!new)>(counts: Codec<nat>, c: Codec<T>, xs: seq<T>, b: Bytes, rest: Bytes)
    requires Exact(counts) && Exact(c) && Counted(counts, c).dec(b) == Done(xs, rest)
    ensures Counted(counts, c).enc(xs).Some? && b == Counted(counts, c).enc(xs).value + rest
  {
    var n, y := counts.dec(b).value, counts.dec(b).rest;
    assert Inverse(counts, n, b, y);
    ItemsWrite(c, n, y, xs, rest);
    assert b == counts.enc(n).value + EncodeItems(c, xs).value + rest;
  }

  lemma CountedReads<T(!new)>(counts: Codec<nat>, c: Codec<T>, xs: seq<T>, rest: Bytes)
    requires Exact(counts) && Exact(c) && Counted(counts, c).enc(xs).Some?
    ensures Counted(counts, c).dec(Counted(counts, c).enc(xs).value + rest) == Done(xs, rest)
  {
    var count, items := counts.enc(|xs|), EncodeItems(c, xs);
    assert Counted(counts, c).enc(xs) == Append(count, items);
    assert count.value + items.value + rest == count.value + (items.value + rest);
    ReadsBack(counts, |xs|, count.value, items.value + rest);
    ItemsRead(c, xs, rest);
  }

  lemma CountedExact<T(!new)>(counts: Codec<nat>, c: Codec<T>)
    requires Exact(counts) && Exact(c)
    ensures Exact(Counted(counts, c))
  {
    var v := Counted(counts, c);
    forall xs: seq<T>, b: Bytes, rest: Bytes
      ensures Inverse(v, xs, b, rest)
    {
      if v.dec(b) == Done(xs, rest) {
        CountedWrites(counts, c, xs, b, rest);
      }
      if v.enc(xs).Some? && b == v.enc(xs).value + rest {
        CountedReads(counts, c, xs, rest);
      }
    }
  }

  function Vector<T>(c: Codec<T>): Codec<seq<T>> {
    Counted(LengthCodec, c)
  }

  /** A vector of exactly coded elements is exactly coded, at every length and nesting. */
  lemma VectorExact<T(!new)>(c: Codec<T>)
    requires Exact(c)
    ensures Exact(Vector(c))
  {
    LengthExact();
    CountedExact(LengthCodec, c);
  }

  /** Bytes are written as they are. */
  lemma {:induction false} BytesAsTheyAre(xs: Bytes)
    ensures EncodeItems(ByteCodec, xs) == Some(xs)
  {
    if xs == [] {
    } else {
      BytesAsTheyAre(xs[1..]);
      assert xs == [xs[0]] + xs[1..];
    }
  }
}
