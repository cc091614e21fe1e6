/**
 The record cipher: SHA-256 in counter mode for the keystream, then HMAC-SHA256 over
 associated data, nonce and ciphertext.
 */
module Aead {
  import opened Basics
  import opened KeySchedule

  // ---------- block counter ----------

  /** The low `width` bytes of n, most significant first. */
  function BigEndian(n: nat, width: nat): (r: Bytes)
    ensures |r| == width
    decreases width, n
  {
    if width == 0 then [] else BigEndian(n / 256, width - 1) + [n % 256]
  }

  function FromBigEndian(b: Bytes): nat {
    if b == [] then 0 else FromBigEndian(b[..|b| - 1]) * 256 + b[|b| - 1]
  }

  function Pow256(width: nat): nat {
    if width == 0 then 1 else 256 * Pow256(width - 1)
  }

  lemma {:induction false} BigEndianRoundTrip(n: nat, width: nat)
    requires n < Pow256(width)
    ensures FromBigEndian(BigEndian(n, width)) == n
    decreases width
  {
    if width == 0 {
    } else {
      BigEndianRoundTrip(n / 256, width - 1);
      assert BigEndian(n, width)[..width - 1] == BigEndian(n / 256, width - 1);
    }
  }

  const COUNTER_LIMIT: nat := 0x1_0000_0000_0000_0000

  lemma Pow256Of8()
    ensures Pow256(8) == COUNTER_LIMIT
  {
    assert Pow256(2) == 0x1_0000 by {
      assert Pow256(1) == 256;
    }
    assert Pow256(4) == 0x1_0000_0000 by {
      assert Pow256(3) == 0x100_0000;
    }
    assert Pow256(6) == 0x1_0000_0000_0000 by {
      assert Pow256(5) == 0x100_0000_0000;
    }
    assert Pow256(8) == COUNTER_LIMIT by {
      assert Pow256(7) == 0x100_0000_0000_0000;
    }
  }

  /** Different blocks have different counters, as long as the counter fits 8 bytes. */
  lemma CountersDistinct(i: nat, j: nat)
    requires i < COUNTER_LIMIT && j < COUNTER_LIMIT && i != j
    ensures BigEndian(i, 8) != BigEndian(j, 8)
  {
    Pow256Of8();
    BigEndianRoundTrip(i, 8);
    BigEndianRoundTrip(j, 8);
  }

  // ---------- keystream ----------

  function StreamBlock(p: Primitives, key: Bytes, nonce: Bytes, i: nat): Digest {
    p.sha256(key + nonce + BigEndian(i, 8))
  }

  function Stream(p: Primitives, key: Bytes, nonce: Bytes, n: nat): (r: Bytes)
    ensures |r| == 32 * n
  {
    if n == 0 then [] else Stream(p, key, nonce, n - 1) + StreamBlock(p, key, nonce, n - 1)
  }

  /** The first `length` bytes of blocks 0, 1, ..., ceil(length / 32) - 1. */
  function Keystream(p: Primitives, key: Bytes, nonce: Bytes, length: nat): (r: Bytes)
    ensures |r| == length
  {
    Stream(p, key, nonce, BlocksFor(length))[..length]
  }

  /** Beyond 2^64 blocks struct.pack raises. */
  method Sha256CtrKeystream(p: Primitives, key: Bytes, nonce: Bytes, nbytes: nat) returns (r: Option<Bytes>)
    ensures r.Some? <==> nbytes <= 32 * COUNTER_LIMIT
    ensures r.Some? ==> r.value == Keystream(p, key, nonce, nbytes)
  {
    var out: Bytes := [];
    var counter := 0;
    while |out| < nbytes
      invariant 0 <= counter <= COUNTER_LIMIT
      invariant out == Stream(p, key, nonce, counter)
      invariant counter == 0 || 32 * (counter - 1) < nbytes
      decreases nbytes - |out|
    {
      if counter >= COUNTER_LIMIT {
        return None;
      }
      out := out + p.sha256(key + nonce + BigEndian(counter, 8));
      counter := counter + 1;
    }
    assert counter == BlocksFor(nbytes);
    r := Some(out[..nbytes]);
  }

  lemma {:induction false} StreamPrefix(p: Primitives, key: Bytes, nonce: Bytes, m: nat, n: nat)
    requires m <= n
    ensures Stream(p, key, nonce, m) <= Stream(p, key, nonce, n)
    decreases n
  {
    if m == n {
    } else {
      StreamPrefix(p, key, nonce, m, n - 1);
    }
  }

  lemma KeystreamPrefix(p: Primitives, key: Bytes, nonce: Bytes, short: nat, long: nat)
    requires short <= long
    ensures Keystream(p, key, nonce, short) == Keystream(p, key, nonce, long)[..short]
  {
    StreamPrefix(p, key, nonce, BlocksFor(short), BlocksFor(long));
  }

  lemma ConcatAt(a: Bytes, b: Bytes, j: nat)
    requires j < |b|
    ensures (a + b)[|a| + j] == b[j]
  {
  }

  lemma PrefixAt(a: Bytes, b: Bytes, k: nat)
    requires a <= b && k < |a|
    ensures a[k] == b[k]
  {
  }

  lemma StreamAt(p: Primitives, key: Bytes, nonce: Bytes, n: nat, i: nat, j: nat)
    requires i < n && j < 32
    ensures 32 * i + j < 32 * n
    ensures Stream(p, key, nonce, n)[32 * i + j] == StreamBlock(p, key, nonce, i)[j]
  {
    ConcatAt(Stream(p, key, nonce, i), StreamBlock(p, key, nonce, i), j);
    StreamPrefix(p, key, nonce, i + 1, n);
    PrefixAt(Stream(p, key, nonce, i + 1), Stream(p, key, nonce, n), 32 * i + j);
  }

  /** Byte k of the keystream is byte k mod 32 of the block with counter k / 32. */
  lemma KeystreamByte(p: Primitives, key: Bytes, nonce: Bytes, length: nat, k: nat)
    requires k < length
    ensures Keystream(p, key, nonce, length)[k] == StreamBlock(p, key, nonce, k / 32)[k % 32]
  {
    StreamAt(p, key, nonce, BlocksFor(length), k / 32, k % 32);
  }

  // ---------- exclusive or ----------

  /** a ^ b on the low `bits` bits. */
  function XorBits(a: nat, b: nat, bits: nat): nat
    decreases bits, a
  {
    if bits == 0 then 0 else (a % 2 + b % 2) % 2 + 2 * XorBits(a / 2, b / 2, bits - 1)
  }

  function Pow2(bits: nat): (r: nat)
    ensures r > 0
  {
    if bits == 0 then 1 else 2 * Pow2(bits - 1)
  }

  lemma {:induction false} XorBounded(a: nat, b: nat, bits: nat)
    ensures XorBits(a, b, bits) < Pow2(bits)
    decreases bits
  {
    if bits > 0 {
      XorBounded(a / 2, b / 2, bits - 1);
    }
  }

  lemma {:induction false} XorTwice(a: nat, b: nat, bits: nat)
    requires a < Pow2(bits)
    ensures XorBits(XorBits(a, b, bits), b, bits) == a
    decreases bits
  {
    if bits > 0 {
      XorTwice(a / 2, b / 2, bits - 1);
      LowBitXorTwice(a % 2, b % 2, XorBits(a / 2, b / 2, bits - 1));
    }
  }

  lemma LowBitXorTwice(x: nat, y: nat, high: nat)
    requires x < 2 && y < 2
    ensures ((x + y) % 2 + 2 * high) / 2 == high && (((x + y) % 2 + 2 * high) % 2 + y) % 2 == x
  {
  }

  lemma Pow2Of8()
    ensures Pow2(8) == 256
  {
    assert Pow2(2) == 4;
    assert Pow2(4) == 16;
    assert Pow2(6) == 64;
  }

  function Xor(a: Byte, b: Byte): Byte {
    Pow2Of8();
    XorBounded(a, b, 8);
    XorBits(a, b, 8)
  }

  lemma XorInvolutive(a: Byte, b: Byte)
    ensures Xor(Xor(a, b), b) == a
  {
    Pow2Of8();
    XorTwice(a, b, 8);
  }

  lemma {:induction false} XorBitAt(a: nat, b: nat, bits: nat, k: nat)
    requires k < bits
    ensures a / Pow2(k) % 2 != b / Pow2(k) % 2 <==> XorBits(a, b, bits) / Pow2(k) % 2 == 1
    decreases k, bits
  {
    LowAndHigh((a % 2 + b % 2) % 2, XorBits(a / 2, b / 2, bits - 1));
    if k > 0 {
      XorBitAt(a / 2, b / 2, bits - 1, k - 1);
      HalveFirst(a, Pow2(k - 1));
      HalveFirst(b, Pow2(k - 1));
      HalveFirst(XorBits(a, b, bits), Pow2(k - 1));
    }
  }

  lemma LowAndHigh(low: nat, high: nat)
    requires low < 2
    ensures (low + 2 * high) % 2 == low && (low + 2 * high) / 2 == high
  {
  }

  lemma HalveFirst(n: nat, d: nat)
    requires d > 0
    ensures n / (2 * d) == n / 2 / d
  {
    var q, r := n / 2 / d, n / 2 % d;
    assert n / 2 == q * d + r && n == 2 * (n / 2) + n % 2;
    assert n == q * (2 * d) + (2 * r + n % 2);
    QuotientIs(n, 2 * d, q, 2 * r + n % 2);
  }

  lemma QuotientIs(n: nat, d: nat, q: nat, r: nat)
    requires n == q * d + r && r < d
    ensures n / d == q
  {
    var q' := n / d;
    assert n == q' * d + n % d;
    LargerMultiple(q, q', d);
    LargerMultiple(q', q, d);
  }

  lemma {:induction false} LargerMultiple(a: int, b: int, d: nat)
    ensures a < b ==> a * d + d <= b * d
    decreases b - a
  {
    Distribute(b - 1, d);
    if a < b - 1 {
      LargerMultiple(a, b - 1, d);
    }
  }

  lemma Distribute(a: int, d: nat)
    ensures (a + 1) * d == a * d + d
  {
  }

  /** Exclusive or, bit by bit. */
  lemma XorBit(a: Byte, b: Byte, k: nat)
    requires k < 8
    ensures a / Pow2(k) % 2 != b / Pow2(k) % 2 <==> Xor(a, b) / Pow2(k) % 2 == 1
  {
    XorBitAt(a, b, 8, k);
  }

  function XorAll(a: Bytes, b: Bytes): (r: Bytes)
    requires |a| == |b|
    ensures |r| == |a|
  {
    seq(|a|, i requires 0 <= i < |a| => Xor(a[i], b[i]))
  }

  lemma XorAllInvolutive(a: Bytes, b: Bytes)
    requires |a| == |b|
    ensures XorAll(XorAll(a, b), b) == a
  {
    forall i | 0 <= i < |a|
      ensures XorAll(XorAll(a, b), b)[i] == a[i]
    {
      XorInvolutive(a[i], b[i]);
    }
  }

  // ---------- encrypt-then-MAC ----------

  function Encrypt(p: Primitives, kEnc: Bytes, kMac: Bytes, nonce: Bytes, plaintext: Bytes, aad: Bytes): Bytes {
    var ct := XorAll(plaintext, Keystream(p, kEnc, nonce, |plaintext|));
    ct + p.hmac(kMac, aad + nonce + ct)
  }

  /** None where aead_decrypt raises ValueError. */
  function Decrypt(p: Primitives, kEnc: Bytes, kMac: Bytes, nonce: Bytes, blob: Bytes, aad: Bytes): Option<Bytes> {
    if |blob| < DIGEST_LEN then
      None
    else
      var ct, tag := blob[..|blob| - DIGEST_LEN], blob[|blob| - DIGEST_LEN..];
      if tag != p.hmac(kMac, aad + nonce + ct) then None
      else Some(XorAll(ct, Keystream(p, kEnc, nonce, |ct|)))
  }

  /** What is in a blob. A bit of the i-th byte differs from the plaintext's iff it is set in
      byte i mod 32 of the hash of key, nonce and the 8-byte counter i / 32; the last 32
      bytes are the MAC of associated data, nonce and ciphertext. */
  lemma EncryptedByte(p: Primitives, kEnc: Bytes, kMac: Bytes, nonce: Bytes, plaintext: Bytes, aad: Bytes, i: nat, k: nat)
    returns (c: Bytes)
    requires i < |plaintext| && i / 32 < COUNTER_LIMIT && k < 8
    ensures var blob := Encrypt(p, kEnc, kMac, nonce, plaintext, aad);
            && |blob| == |plaintext| + 32
            && |c| == 8 && FromBigEndian(c) == i / 32
            && (blob[i] / Pow2(k) % 2 != plaintext[i] / Pow2(k) % 2 <==>
                  p.sha256(kEnc + nonce + c)[i % 32] / Pow2(k) % 2 == 1)
  {
    var ks := Keystream(p, kEnc, nonce, |plaintext|);
    c := BigEndian(i / 32, 8);
    Pow256Of8();
    BigEndianRoundTrip(i / 32, 8);
    KeystreamByte(p, kEnc, nonce, |plaintext|, i);
    XorBit(plaintext[i], ks[i], k);
    BitsFlip(plaintext[i], ks[i], Xor(plaintext[i], ks[i]), Pow2(k));
  }

  lemma BitsFlip(a: Byte, b: Byte, x: Byte, d: nat)
    requires d > 0 && (a / d % 2 != b / d % 2 <==> x / d % 2 == 1)
    ensures x / d % 2 != a / d % 2 <==> b / d % 2 == 1
  {
  }

  lemma EncryptedTag(p: Primitives, kEnc: Bytes, kMac: Bytes, nonce: Bytes, plaintext: Bytes, aad: Bytes)
    ensures var blob := Encrypt(p, kEnc, kMac, nonce, plaintext, aad);
            |blob| == |plaintext| + 32 && blob[|plaintext|..] == p.hmac(kMac, aad + nonce + blob[..|plaintext|])
  {
    var ct := XorAll(plaintext, Keystream(p, kEnc, nonce, |plaintext|));
    assert Encrypt(p, kEnc, kMac, nonce, plaintext, aad)[..|plaintext|] == ct;
  }

  /** Decryption inverts encryption at every length, and it accepts nothing else: a blob
      decrypts to a plaintext iff it is that plaintext's encryption. */
  lemma DecryptIffEncrypted(p: Primitives, kEnc: Bytes, kMac: Bytes, nonce: Bytes, blob: Bytes, aad: Bytes, plaintext: Bytes)
    ensures Decrypt(p, kEnc, kMac, nonce, blob, aad) == Some(plaintext) <==>
            blob == Encrypt(p, kEnc, kMac, nonce, plaintext, aad)
  {
    var ks := Keystream(p, kEnc, nonce, |plaintext|);
    var ct := XorAll(plaintext, ks);
    var tag := p.hmac(kMac, aad + nonce + ct);
    XorAllInvolutive(plaintext, ks);
    if blob == Encrypt(p, kEnc, kMac, nonce, plaintext, aad) {
      assert blob[..|blob| - DIGEST_LEN] == ct && blob[|blob| - DIGEST_LEN..] == tag;
    }
    if Decrypt(p, kEnc, kMac, nonce, blob, aad) == Some(plaintext) {
      var c := blob[..|blob| - DIGEST_LEN];
      XorAllInvolutive(c, Keystream(p, kEnc, nonce, |c|));
      assert c == ct;
      assert blob == c + blob[|blob| - DIGEST_LEN..];
    }
  }
}
