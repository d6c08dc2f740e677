/**
 * Base64 as the text form of entry fields: the alphabet and padding of RFC 4648
 * section 4, accepting canonical encodings only (RFC 4648 section 3.5).
 */
module Base64 {
  import opened Wrappers
  import opened ByteStrings

  type Sextet = x: int | 0 <= x < 64

  const PAD: char := '='

  function Symbol(x: Sextet): char {
    if x < 26 then ('A' as int + x) as char
    else if x < 52 then ('a' as int + x - 26) as char
    else if x < 62 then ('0' as int + x - 52) as char
    else if x == 62 then '+'
    else '/'
  }

  function ValueOf(c: char): Option<Sextet> {
    if 'A' <= c <= 'Z' then Some(c as int - 'A' as int)
    else if 'a' <= c <= 'z' then Some(c as int - 'a' as int + 26)
    else if '0' <= c <= '9' then Some(c as int - '0' as int + 52)
    else if c == '+' then Some(62)
    else if c == '/' then Some(63)
    else None
  }

  lemma SymbolsAndValues(c: char, x: Sextet)
    ensures ValueOf(c) == Some(x) <==> Symbol(x) == c
    ensures ValueOf(PAD) == None
  {
  }

  // --- groups of three bytes and four symbols

  function EncodeGroup(a: Byte, b: Byte, c: Byte): (Sextet, Sextet, Sextet, Sextet) {
    (a / 4, a % 4 * 16 + b / 16, b % 16 * 4 + c / 64, c % 64)
  }

  function DecodeGroup(x: Sextet, y: Sextet, z: Sextet, w: Sextet): (Byte, Byte, Byte) {
    (x * 4 + y / 16, y % 16 * 16 + z / 4, z % 4 * 64 + w)
  }

  lemma Split(hi: nat, lo: nat, k: nat)
    requires k == 4 || k == 16 || k == 64
    requires lo < k
    ensures (hi * k + lo) / k == hi && (hi * k + lo) % k == lo
  {
  }

  lemma GroupDecodes(a: Byte, b: Byte, c: Byte)
    ensures var (x, y, z, w) := EncodeGroup(a, b, c); DecodeGroup(x, y, z, w) == (a, b, c)
  {
    Split(a % 4, b / 16, 16);
    Split(b % 16, c / 64, 4);
  }

  lemma GroupEncodes(x: Sextet, y: Sextet, z: Sextet, w: Sextet)
    ensures var (a, b, c) := DecodeGroup(x, y, z, w); EncodeGroup(a, b, c) == (x, y, z, w)
  {
    var (a, b, c) := DecodeGroup(x, y, z, w);
    assert a / 4 == x && a % 4 == y / 16 by {
      Split(x, y / 16, 4);
    }
    assert b / 16 == y % 16 && b % 16 == z / 4 by {
      Split(y % 16, z / 4, 16);
    }
    assert c / 64 == z % 4 && c % 64 == w by {
      Split(z % 4, w, 64);
    }
    assert y / 16 * 16 + y % 16 == y && z / 4 * 4 + z % 4 == z;
  }

  lemma GroupsAgree(a: Byte, b: Byte, c: Byte, x: Sextet, y: Sextet, z: Sextet, w: Sextet)
    ensures EncodeGroup(a, b, c) == (x, y, z, w) <==> DecodeGroup(x, y, z, w) == (a, b, c)
  {
    GroupDecodes(a, b, c);
    GroupEncodes(x, y, z, w);
  }

  /** Three bytes and their four sextets are one 24-bit number, most significant part first. */
  lemma GroupIsOneNumber(a: Byte, b: Byte, c: Byte)
    ensures var (x, y, z, w) := EncodeGroup(a, b, c);
            0x4_0000 * x + 0x1000 * y + 0x40 * z + w == 0x1_0000 * a + 0x100 * b + c
  {
    assert a == a / 4 * 4 + a % 4 && b == b / 16 * 16 + b % 16 && c == c / 64 * 64 + c % 64;
  }

  // --- byte strings of any length

  /** The last one to three bytes, padded to four symbols. */
  function EncodeLast(bs: Bytes): (s: string)
    requires 1 <= |bs| <= 3
    ensures |s| == 4
  {
    var b := if |bs| > 1 then bs[1] else 0;
    var c := if |bs| > 2 then bs[2] else 0;
    var (x, y, z, w) := EncodeGroup(bs[0], b, c);
    [Symbol(x), Symbol(y), if |bs| > 1 then Symbol(z) else PAD, if |bs| > 2 then Symbol(w) else PAD]
  }

  function Encode(bs: Bytes): string {
    if bs == [] then ""
    else if |bs| <= 3 then EncodeLast(bs)
    else EncodeLast(bs[..3]) + Encode(bs[3..])
  }

  /** Four symbols of which the last two may be padding; the bits that padding leaves over must be zero. */
  function DecodeLast(s: string): Option<Bytes>
    requires |s| == 4
  {
    match (ValueOf(s[0]), ValueOf(s[1]), ValueOf(s[2]), ValueOf(s[3]))
    case (Some(x), Some(y), Some(z), Some(w)) =>
      var (a, b, c) := DecodeGroup(x, y, z, w);
      Some([a, b, c])
    case (Some(x), Some(y), Some(z), None) =>
      var (a, b, c) := DecodeGroup(x, y, z, 0);
      if s[3] == PAD && c == 0 then Some([a, b]) else None
    case (Some(x), Some(y), None, None) =>
      var (a, b, c) := DecodeGroup(x, y, 0, 0);
      if s[2] == PAD && s[3] == PAD && b == 0 then Some([a]) else None
    case _ => None
  }

  function Decode(s: string): Option<Bytes> {
    if s == "" then Some([])
    else if |s| < 4 then None
    else if |s| == 4 then DecodeLast(s)
    else
      match (DecodeLast(s[..4]), Decode(s[4..]))
      case (Some(first), Some(rest)) => if |first| == 3 then Some(first + rest) else None
      case _ => None
  }

  lemma SymbolReads(x: Sextet)
    ensures ValueOf(Symbol(x)) == Some(x)
  {
    SymbolsAndValues(Symbol(x), x);
  }

  /** Decoding an encoded last group gives it back. */
  lemma LastDecodes(bs: Bytes)
    requires 1 <= |bs| <= 3
    ensures DecodeLast(EncodeLast(bs)) == Some(bs)
  {
    var b := if |bs| > 1 then bs[1] else 0;
    var c := if |bs| > 2 then bs[2] else 0;
    var (x, y, z, w) := EncodeGroup(bs[0], b, c);
    GroupDecodes(bs[0], b, c);
    SymbolReads(x);
    SymbolReads(y);
    SymbolReads(z);
    SymbolReads(w);
    SymbolsAndValues(PAD, 0);
    if |bs| == 1 {
      assert z == 0 && w == 0;
      assert bs == [bs[0]];
    } else if |bs| == 2 {
      assert w == 0;
      assert bs == [bs[0], bs[1]];
    } else {
      assert bs == [bs[0], bs[1], bs[2]];
    }
  }

  lemma LastIsCanonical(s: string, bs: Bytes)
    requires |s| == 4 && DecodeLast(s) == Some(bs)
    ensures 1 <= |bs| <= 3 && s == EncodeLast(bs)
  {
    var x, y := ValueOf(s[0]).value, ValueOf(s[1]).value;
    var z := if |bs| > 1 then ValueOf(s[2]).value else 0;
    var w := if |bs| > 2 then ValueOf(s[3]).value else 0;
    var (a, b, c) := DecodeGroup(x, y, z, w);
    GroupsAgree(a, b, c, x, y, z, w);
    SymbolsAndValues(s[0], x);
    SymbolsAndValues(s[1], y);
    SymbolsAndValues(s[2], z);
    SymbolsAndValues(s[3], w);
    assert bs == [a, b, c][..|bs|];
    assert bs[0] == a && (|bs| > 1 ==> bs[1] == b) && (|bs| > 2 ==> bs[2] == c);
    assert EncodeGroup(a, b, c) == (x, y, z, w);
    assert s == [s[0], s[1], s[2], s[3]];
  }

  lemma LastAgrees(s: string, bs: Bytes)
    requires |s| == 4 && 1 <= |bs| <= 3
    ensures DecodeLast(s) == Some(bs) <==> s == EncodeLast(bs)
  {
    if DecodeLast(s) == Some(bs) {
      LastIsCanonical(s, bs);
    }
    LastDecodes(bs);
  }

  /** A string decodes to given bytes exactly when it is their encoding. */
  lemma {:induction false} DecodesExactly(s: string, bs: Bytes)
    ensures Decode(s) == Some(bs) <==> s == Encode(bs)
    decreases |s| + |bs|
  {
    if |s| == 4 && 1 <= |bs| <= 3 {
      LastAgrees(s, bs);
    } else if |s| > 4 && |bs| > 3 {
      LastAgrees(s[..4], bs[..3]);
      DecodesExactly(s[4..], bs[3..]);
      assert bs == bs[..3] + bs[3..];
      assert s == s[..4] + s[4..];
    }
  }

  // --- the text form

  /** The 64 symbols in the order of their values. */
  lemma Alphabet()
    ensures [Symbol(0), Symbol(1), Symbol(2), Symbol(3), Symbol(4), Symbol(5), Symbol(6), Symbol(7)] == "ABCDEFGH"
    ensures [Symbol(8), Symbol(9), Symbol(10), Symbol(11), Symbol(12), Symbol(13), Symbol(14), Symbol(15)] == "IJKLMNOP"
    ensures [Symbol(16), Symbol(17), Symbol(18), Symbol(19), Symbol(20), Symbol(21), Symbol(22), Symbol(23)] == "QRSTUVWX"
    ensures [Symbol(24), Symbol(25), Symbol(26), Symbol(27), Symbol(28), Symbol(29), Symbol(30), Symbol(31)] == "YZabcdef"
    ensures [Symbol(32), Symbol(33), Symbol(34), Symbol(35), Symbol(36), Symbol(37), Symbol(38), Symbol(39)] == "ghijklmn"
    ensures [Symbol(40), Symbol(41), Symbol(42), Symbol(43), Symbol(44), Symbol(45), Symbol(46), Symbol(47)] == "opqrstuv"
    ensures [Symbol(48), Symbol(49), Symbol(50), Symbol(51), Symbol(52), Symbol(53), Symbol(54), Symbol(55)] == "wxyz0123"
    ensures [Symbol(56), Symbol(57), Symbol(58), Symbol(59), Symbol(60), Symbol(61), Symbol(62), Symbol(63)] == "456789+/"
  {
  }

  lemma EncodeMore(bs: Bytes)
    requires |bs| > 3
    ensures Encode(bs) == EncodeLast(bs[..3]) + Encode(bs[3..])
  {
  }

  lemma Thirds(n: nat)
    ensures (n + 3 + 2) / 3 == (n + 2) / 3 + 1
    ensures (n + 3) % 3 == n % 3
  {
  }

  /** Every three bytes, or fewer at the end, take four symbols. */
  lemma {:induction false} EncodedLength(bs: Bytes)
    ensures |Encode(bs)| == 4 * ((|bs| + 2) / 3)
  {
    if bs == [] {
    } else if |bs| <= 3 {
      assert (|bs| + 2) / 3 == 1;
      assert Encode(bs) == EncodeLast(bs);
    } else {
      EncodeMore(bs);
      EncodedLength(bs[3..]);
      Thirds(|bs| - 3);
    }
  }

  /** The sign of padding stands last when bytes are over, and last but one too when only one is; nowhere else. */
  ghost predicate Padded(s: string, over: nat) {
    var n := |s|;
    && n >= 4
    && (forall k :: 0 <= k < n - 2 ==> s[k] != '=')
    && (s[n - 2] == '=' <==> over == 1)
    && (s[n - 1] == '=' <==> over != 0)
  }

  lemma SymbolIsNoPadding(x: Sextet)
    ensures Symbol(x) != '='
  {
  }

  lemma LastIsPadded(bs: Bytes)
    requires 1 <= |bs| <= 3
    ensures Padded(EncodeLast(bs), |bs| % 3)
  {
    var b := if |bs| > 1 then bs[1] else 0;
    var c := if |bs| > 2 then bs[2] else 0;
    var (x, y, z, w) := EncodeGroup(bs[0], b, c);
    SymbolIsNoPadding(x);
    SymbolIsNoPadding(y);
    SymbolIsNoPadding(z);
    SymbolIsNoPadding(w);
    assert EncodeLast(bs)[0] == Symbol(x) && EncodeLast(bs)[1] == Symbol(y);
  }

  lemma PaddedAfter(first: string, s: string, over: nat)
    requires |first| == 4 && Padded(first, 0) && Padded(s, over)
    ensures Padded(first + s, over)
  {
    var t, n := first + s, 4 + |s|;
    assert t[n - 2] == s[|s| - 2] && t[n - 1] == s[|s| - 1];
    forall k | 0 <= k < n - 2
      ensures t[k] != '='
    {
      if k == 2 || k == 3 {
        assert t[k] == first[k] && first[2] != '=' && first[3] != '=';
      } else if k < 2 {
        assert t[k] == first[k];
      } else {
        assert t[k] == s[k - 4];
      }
    }
  }

  /** One byte over leaves two signs of padding, two bytes over leave one, and otherwise there is none. */
  lemma {:induction false} Padding(bs: Bytes)
    requires bs != []
    ensures Padded(Encode(bs), |bs| % 3)
  {
    if |bs| <= 3 {
      LastIsPadded(bs);
    } else {
      EncodeMore(bs);
      LastIsPadded(bs[..3]);
      Padding(bs[3..]);
      Thirds(|bs| - 3);
      PaddedAfter(EncodeLast(bs[..3]), Encode(bs[3..]), |bs| % 3);
    }
  }

  /** Published encodings (RFC 4648 section 10): of "f", with two signs of padding, */
  lemma VectorTwo(bs: Bytes)
    requires bs == [0x66]
    ensures Encode(bs) == "Zg=="
  {
  }

  /** of "fo", with one, */
  lemma VectorOne(bs: Bytes)
    requires bs == [0x66, 0x6F]
    ensures Encode(bs) == "Zm8="
  {
  }

  /** and of "foobar", with none. */
  lemma VectorNone(bs: Bytes)
    requires bs == [0x66, 0x6F, 0x6F, 0x62, 0x61, 0x72]
    ensures Encode(bs) == "Zm9vYmFy"
  {
    assert EncodeLast(bs[..3]) == "Zm9v" && EncodeLast(bs[3..]) == "YmFy";
  }

  /** The value of the message that the client sends. */
  lemma VectorValue(bs: Bytes)
    requires bs == [118, 97, 108, 117, 101]
    ensures Encode(bs) == "dmFsdWU="
  {
    assert EncodeLast(bs[..3]) == "dmFs" && EncodeLast(bs[3..]) == "dWU=";
  }
}
