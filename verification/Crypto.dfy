/**
 * The cryptographic primitives, as parameters.  Nothing below fixes an
 * algorithm: every theorem that needs a law of the primitives says so by
 * requiring `Lawful`, and `Toy` shows that the laws can be met together.
 * The digest is an arbitrary total function; it is never assumed injective.
 */
module Crypto {
  import opened Wrappers
  import opened ByteStrings

  /** Bytes that authenticated encryption adds to a plaintext. */
  const TAG_SIZE: nat := 16

  datatype Suite = Suite(
    digest: Bytes -> Digest,
    publicKey: Key -> Key,
    agreement: (Key, Key) -> Key,
    sealer: (Key, Nonce, Bytes) -> Option<Bytes>,
    opener: (Key, Nonce, Bytes) -> Option<Bytes>)
  {
    function Hash(data: Bytes): Digest {
      digest(data)
    }

    /** The public key of a secret key. */
    function Public(sk: Key): Key {
      publicKey(sk)
    }

    /** The key that the owner of `sk` shares with the owner of `pk`. */
    function Shared(pk: Key, sk: Key): Key {
      agreement(pk, sk)
    }

    /** Authenticated encryption; None when the primitive reports an error. */
    function Seal(key: Key, nonce: Nonce, plain: Bytes): Option<Bytes> {
      sealer(key, nonce, plain)
    }

    /** Authenticated decryption; None when authentication fails. */
    function Open(key: Key, nonce: Nonce, cipher: Bytes): Option<Bytes> {
      opener(key, nonce, cipher)
    }

    ghost predicate SealOpens(key: Key, nonce: Nonce, plain: Bytes) {
      match Seal(key, nonce, plain)
      case None => true
      case Some(c) => |c| == |plain| + TAG_SIZE && Open(key, nonce, c) == Some(plain)
    }

    ghost predicate Agrees(a: Key, b: Key) {
      Shared(Public(a), b) == Shared(Public(b), a)
    }

    /** What is sealed opens, grows by the tag, and both ends share one key. */
    ghost predicate Lawful() {
      && (forall key, nonce, plain :: SealOpens(key, nonce, plain))
      && (forall a, b :: Agrees(a, b))
    }
  }

  /** Elementwise sum of two keys. */
  function Mix(a: Key, b: Key): Key {
    seq(KEY_SIZE, i requires 0 <= i < KEY_SIZE => (a[i] as int + b[i] as int) % 256)
  }

  /** A toy suite: the tag is half of the key, so another key is noticed. */
  function Toy(): Suite {
    Suite(
      data => if |data| >= KEY_SIZE then data[..KEY_SIZE] else data + Zeros(KEY_SIZE - |data|),
      sk => sk,
      (pk, sk) => Mix(pk, sk),
      (key: Key, nonce: Nonce, plain: Bytes) => Some(plain + key[..TAG_SIZE]),
      (key: Key, nonce: Nonce, cipher: Bytes) =>
        if |cipher| >= TAG_SIZE && cipher[|cipher| - TAG_SIZE..] == key[..TAG_SIZE]
        then Some(cipher[..|cipher| - TAG_SIZE]) else None)
  }

  /** The laws are satisfiable, and compatible with a wrong key failing to open. */
  lemma ToyIsLawful()
    ensures Toy().Lawful()
    ensures forall p, q, e, nonce, plain {:trigger Toy().Open(Toy().Shared(q, e), nonce, Toy().Seal(Toy().Shared(p, e), nonce, plain).value)} ::
              p[..TAG_SIZE] != q[..TAG_SIZE] ==>
              Toy().Seal(Toy().Shared(p, e), nonce, plain).Some? &&
              Toy().Open(Toy().Shared(q, e), nonce, Toy().Seal(Toy().Shared(p, e), nonce, plain).value) == None
  {
    var t := Toy();
    forall key, nonce, plain
      ensures t.SealOpens(key, nonce, plain)
    {
      var c := plain + key[..TAG_SIZE];
      assert c[|c| - TAG_SIZE..] == key[..TAG_SIZE] && c[..|c| - TAG_SIZE] == plain;
    }
    forall a, b
      ensures t.Agrees(a, b)
    {
      assert Mix(a, b) == Mix(b, a);
    }
    forall p: Key, q: Key, e: Key, nonce: Nonce, plain: Bytes | p[..TAG_SIZE] != q[..TAG_SIZE]
      ensures t.Seal(t.Shared(p, e), nonce, plain).Some?
      ensures t.Open(t.Shared(q, e), nonce, t.Seal(t.Shared(p, e), nonce, plain).value) == None
    {
      var i :| 0 <= i < TAG_SIZE && p[i] != q[i];
      assert Mix(p, e)[..TAG_SIZE][i] != Mix(q, e)[..TAG_SIZE][i];
      var c := plain + Mix(p, e)[..TAG_SIZE];
      assert c[|c| - TAG_SIZE..] == Mix(p, e)[..TAG_SIZE];
    }
  }
}
