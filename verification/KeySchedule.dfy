/**
 Key derivation on the client: HKDF over HMAC-SHA256 (RFC 5869, sections 2.2 and 2.3)
 and the key hierarchy of a sync group. The hash functions are arbitrary functions
 with 32-byte results.
 */
module KeySchedule {
  import opened Basics
  import Base64Url
  import Utf8

  type Digest = d: Bytes | |d| == 32 witness seq(32, i => 0)

  datatype Primitives = Primitives(sha256: Bytes -> Digest, hmac: (Bytes, Bytes) -> Digest)

  const DIGEST_LEN := 32

  // ---------- HKDF ----------

  function Extract(p: Primitives, salt: Bytes, ikm: Bytes): Digest {
    p.hmac(if salt == [] then seq(DIGEST_LEN, i => 0) else salt, ikm)
  }

  /** T(i) of RFC 5869; T(0) is empty, and i is a single byte in the MAC input. */
  function Block(p: Primitives, prk: Bytes, info: Bytes, i: nat): Bytes
    requires i <= 255
  {
    if i == 0 then [] else p.hmac(prk, Block(p, prk, info, i - 1) + info + [i])
  }

  /** T(1) | ... | T(n). */
  function Blocks(p: Primitives, prk: Bytes, info: Bytes, n: nat): (r: Bytes)
    requires n <= 255
    ensures |r| == 32 * n
  {
    if n == 0 then [] else Blocks(p, prk, info, n - 1) + Block(p, prk, info, n)
  }

  /** ceil(L / 32) */
  function BlocksFor(length: nat): nat {
    (length + 31) / 32
  }

  const MAX_OUTPUT := 255 * 32

  /** The first `length` bytes of T(1) | ... | T(ceil(length / 32)). */
  function Hkdf(p: Primitives, ikm: Bytes, salt: Bytes, info: Bytes, length: nat): (r: Bytes)
    requires length <= MAX_OUTPUT
    ensures |r| == length
  {
    Blocks(p, Extract(p, salt, ikm), info, BlocksFor(length))[..length]
  }

  /** The loop: it raises (None) exactly where the one-byte counter would overflow. */
  method HkdfSha256(p: Primitives, ikm: Bytes, salt: Bytes, info: Bytes, length: nat) returns (r: Option<Bytes>)
    ensures r.Some? <==> length <= MAX_OUTPUT
    ensures r.Some? ==> r.value == Hkdf(p, ikm, salt, info, length)
  {
    var key := if salt == [] then seq(DIGEST_LEN, i => 0) else salt;
    var prk := p.hmac(key, ikm);
    var okm: Bytes, t: Bytes := [], [];
    var counter: nat := 1;
    while |okm| < length
      invariant 1 <= counter <= 256
      invariant okm == Blocks(p, prk, info, counter - 1) && t == Block(p, prk, info, counter - 1)
      invariant counter == 1 || 32 * (counter - 2) < length
      decreases length - |okm|
    {
      if counter > 255 {
        return None;
      }
      t := p.hmac(prk, t + info + [counter]);
      okm := okm + t;
      counter := counter + 1;
    }
    assert counter - 1 == BlocksFor(length);
    r := Some(okm[..length]);
  }

  lemma {:induction false} BlocksPrefix(p: Primitives, prk: Bytes, info: Bytes, m: nat, n: nat)
    requires m <= n <= 255
    ensures Blocks(p, prk, info, m) <= Blocks(p, prk, info, n)
    decreases n
  {
    if m == n {
    } else {
      BlocksPrefix(p, prk, info, m, n - 1);
    }
  }

  /** A shorter output is a prefix of a longer one with the same inputs. */
  lemma ShorterIsPrefix(p: Primitives, ikm: Bytes, salt: Bytes, info: Bytes, short: nat, long: nat)
    requires short <= long <= MAX_OUTPUT
    ensures Hkdf(p, ikm, salt, info, short) == Hkdf(p, ikm, salt, info, long)[..short]
  {
    var prk := Extract(p, salt, ikm);
    BlocksPrefix(p, prk, info, BlocksFor(short), BlocksFor(long));
  }

  lemma {:induction false} BlocksAt(p: Primitives, prk: Bytes, info: Bytes, n: nat, k: nat)
    requires n <= 255 && k < 32 * n
    ensures |Block(p, prk, info, k / 32 + 1)| == 32
    ensures Blocks(p, prk, info, n)[k] == Block(p, prk, info, k / 32 + 1)[k % 32]
    decreases n
  {
    if k < 32 * (n - 1) {
      BlocksAt(p, prk, info, n - 1, k);
    } else {
      assert k / 32 == n - 1 && k % 32 == k - 32 * (n - 1);
    }
  }

  /** The output as RFC 5869 has it: t(0) is empty, t(i) is the MAC of t(i - 1), info and the
      byte i under the MAC of the input key, and byte k of the output is byte k mod 32 of
      t(k / 32 + 1). The salt is 32 zero bytes if none is given. */
  lemma HkdfBytes(p: Primitives, ikm: Bytes, salt: Bytes, info: Bytes, length: nat) returns (t: seq<Bytes>)
    requires length <= 255 * 32
    ensures var prk := p.hmac(if |salt| == 0 then seq(32, i => 0) else salt, ikm);
            && |t| == (length + 31) / 32 + 1 && t[0] == []
            && forall i | 1 <= i < |t| :: t[i] == p.hmac(prk, t[i - 1] + info + [i])
    ensures forall k | 0 <= k < length ::
              |t[k / 32 + 1]| == 32 && Hkdf(p, ikm, salt, info, length)[k] == t[k / 32 + 1][k % 32]
  {
    var prk, n := Extract(p, salt, ikm), BlocksFor(length);
    t := seq(n + 1, i requires 0 <= i <= n => Block(p, prk, info, i));
    forall k | 0 <= k < length
      ensures |t[k / 32 + 1]| == 32 && Hkdf(p, ikm, salt, info, length)[k] == t[k / 32 + 1][k % 32]
    {
      BlocksAt(p, prk, info, n, k);
    }
  }

  // ---------- the keys of a group ----------

  datatype GroupKeys = GroupKeys(kEnc: Bytes, kMac: Bytes, kAuth: Bytes, groupId: string)

  // The labels in bytes; the lemmas below spell them.
  const INFO_ENC: Bytes := [116, 51, 100, 109, 105, 117, 109, 45, 115, 121, 110, 99, 47, 101, 110, 99, 47, 118, 49]
  const INFO_MAC: Bytes := [116, 51, 100, 109, 105, 117, 109, 45, 115, 121, 110, 99, 47, 109, 97, 99, 47, 118, 49]
  const INFO_AUTH: Bytes := [116, 51, 100, 109, 105, 117, 109, 45, 115, 121, 110, 99, 47, 97, 117, 116, 104, 47, 118, 49]
  const INFO_GROUP: Bytes :=
    [116, 51, 100, 109, 105, 117, 109, 45, 115, 121, 110, 99, 47, 103, 114, 111, 117, 112, 45, 105, 100, 47, 118, 49]

  function DeriveKeys(p: Primitives, root: Bytes): GroupKeys {
    GroupKeys(
      Hkdf(p, root, [], INFO_ENC, 32),
      Hkdf(p, root, [], INFO_MAC, 32),
      Hkdf(p, root, [], INFO_AUTH, 32),
      Base64Url.Encode(Hkdf(p, root, [], INFO_GROUP, 16)))
  }

  lemma HkdfOneBlock(p: Primitives, ikm: Bytes, info: Bytes, length: nat)
    requires length <= 32
    ensures Hkdf(p, ikm, [], info, length) == p.hmac(p.hmac(seq(32, i => 0), ikm), info + [1])[..length]
  {
    var t := HkdfBytes(p, ikm, [], info, length);
    if length > 0 {
      assert [] + info + [1] == info + [1];
      assert t[1] == p.hmac(p.hmac(seq(32, i => 0), ikm), info + [1]);
    }
  }

  /** The key is the MAC of the name and the byte 1, under the MAC of the root under zeros. */
  ghost predicate MadeFrom(p: Primitives, root: Bytes, name: string, key: Bytes) {
    |key| == 32 && exists info: Bytes ::
      Utf8.Latin1(info) == name && key == p.hmac(p.hmac(seq(32, i => 0), root), info + [1])
  }

  lemma EncLabelSpelled()
    ensures Utf8.Latin1(INFO_ENC) == "t3dmium-sync/enc/v1"
  {
  }

  lemma MacLabelSpelled()
    ensures Utf8.Latin1(INFO_MAC) == "t3dmium-sync/mac/v1"
  {
  }

  lemma AuthLabelSpelled()
    ensures Utf8.Latin1(INFO_AUTH) == "t3dmium-sync/auth/v1"
  {
  }

  lemma GroupLabelSpelled()
    ensures Utf8.Latin1(INFO_GROUP) == "t3dmium-sync/group-id/v1"
  {
  }

  lemma LabelKey(p: Primitives, root: Bytes, info: Bytes)
    ensures MadeFrom(p, root, Utf8.Latin1(info), Hkdf(p, root, [], info, 32))
  {
    HkdfOneBlock(p, root, info, 32);
  }

  /** The three keys of a group, and the bytes its id begins, are made from four names. */
  lemma KeysOfLabels(p: Primitives, root: Bytes) returns (group: Bytes)
    ensures MadeFrom(p, root, "t3dmium-sync/enc/v1", DeriveKeys(p, root).kEnc)
    ensures MadeFrom(p, root, "t3dmium-sync/mac/v1", DeriveKeys(p, root).kMac)
    ensures MadeFrom(p, root, "t3dmium-sync/auth/v1", DeriveKeys(p, root).kAuth)
    ensures MadeFrom(p, root, "t3dmium-sync/group-id/v1", group)
    ensures Base64Url.Decode(DeriveKeys(p, root).groupId) == Some(group[..16]) && |DeriveKeys(p, root).groupId| == 22
  {
    EncLabelSpelled();
    MacLabelSpelled();
    AuthLabelSpelled();
    GroupLabelSpelled();
    LabelKey(p, root, INFO_ENC);
    LabelKey(p, root, INFO_MAC);
    LabelKey(p, root, INFO_AUTH);
    LabelKey(p, root, INFO_GROUP);
    group := Hkdf(p, root, [], INFO_GROUP, 32);
    ShorterIsPrefix(p, root, [], INFO_GROUP, 16, 32);
    Base64Url.RoundTrip(group[..16]);
    Base64Url.EncodedLength(group[..16]);
  }

  /** Keys of different names are equal only if the MAC takes one value on two inputs. */
  lemma EqualKeysNeedCollision(p: Primitives, root: Bytes, name: string, name': string, key: Bytes)
    returns (x: Bytes, y: Bytes)
    requires MadeFrom(p, root, name, key) && MadeFrom(p, root, name', key) && name != name'
    ensures x != y && exists k :: p.hmac(k, x) == p.hmac(k, y)
  {
    var prk := p.hmac(seq(32, i => 0), root);
    var info: Bytes :| Utf8.Latin1(info) == name && key == p.hmac(prk, info + [1]);
    var info': Bytes :| Utf8.Latin1(info') == name' && key == p.hmac(prk, info' + [1]);
    x, y := info + [1], info' + [1];
    assert info == x[..|x| - 1] && info' == y[..|y| - 1];
    assert p.hmac(prk, x) == p.hmac(prk, y);
  }
}
