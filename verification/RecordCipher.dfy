/** Records as a device encrypts and decrypts them. */
module RecordCipher {
  import opened Basics
  import opened SyncStore
  import opened KeySchedule
  import Aead
  import Base64Url
  import Utf8
  import opened RecordAad

  const AEAD_ALG := "sha256ctr-hmac-sha256-v1"

  /** What a device wants to store; the nonce is its random choice. */
  datatype Edit = Edit(slot: Slot, plaintext: Bytes, version: int, tombstone: bool, nonce: Bytes)

  /** A tombstone carries an empty text whatever plaintext was given. */
  function Body(e: Edit): Bytes {
    if e.tombstone then [] else e.plaintext
  }

  function AadOf(slot: Slot, version: int, tombstone: bool): Bytes {
    Aad(Fields(slot.collection, slot.id, version, tombstone))
  }

  function EncryptRecord(p: Primitives, keys: GroupKeys, e: Edit): Wire {
    var blob := Aead.Encrypt(p, keys.kEnc, keys.kMac, e.nonce, Body(e), AadOf(e.slot, e.version, e.tombstone));
    Wire(e.slot, Base64Url.Encode(e.nonce), Base64Url.Encode(blob), Some(e.version), e.tombstone, Some(AEAD_ALG), true)
  }

  /** None where decrypt_record raises; the associated data is recomputed from the row. */
  function DecryptRecord(p: Primitives, keys: GroupKeys, r: Pulled): Option<Bytes> {
    match Base64Url.Decode(r.nonce)
    case None => None
    case Some(nonce) =>
      match Base64Url.Decode(r.ciphertext)
      case None => None
      case Some(blob) =>
        Aead.Decrypt(p, keys.kEnc, keys.kMac, nonce, blob, AadOf(r.slot, r.version, r.tombstone))
  }

  /** The record an edit becomes: what is sent in clear, and a ciphertext that ends with the
      MAC of the four labels as compact JSON, the nonce and the encrypted text. */
  lemma SealedRecord(p: Primitives, keys: GroupKeys, e: Edit) returns (blob: Bytes)
    ensures var w := EncryptRecord(p, keys, e);
            && w.slot == e.slot && w.version == Some(e.version) && w.tombstone == e.tombstone
            && w.alg == Some("sha256ctr-hmac-sha256-v1")
            && Base64Url.Decode(w.nonce) == Some(e.nonce) && Base64Url.Decode(w.ciphertext) == Some(blob)
    ensures var n := if e.tombstone then 0 else |e.plaintext|;
            var json := "[" + Quote(e.slot.collection) + "," + Quote(e.slot.id) + "," + IntText(e.version) + "," +
                        (if e.tombstone then "true" else "false") + "]";
            && |blob| == n + 32
            && blob[n..] == p.hmac(keys.kMac, Utf8.Encode(json) + e.nonce + blob[..n])
  {
    var aad := AadOf(e.slot, e.version, e.tombstone);
    blob := Aead.Encrypt(p, keys.kEnc, keys.kMac, e.nonce, Body(e), aad);
    Base64Url.RoundTrip(e.nonce);
    Base64Url.RoundTrip(blob);
    Aead.EncryptedTag(p, keys.kEnc, keys.kMac, e.nonce, Body(e), aad);
    JsonInOnePiece(Fields(e.slot.collection, e.slot.id, e.version, e.tombstone));
  }

  lemma JsonInOnePiece(f: Fields)
    ensures JsonText(f) == "[" + Quote(f.collection) + "," + Quote(f.id) + "," + IntText(f.version) + "," +
                           (if f.tombstone then "true" else "false") + "]"
  {
    var collection, id, version, flag := Quote(f.collection), Quote(f.id), IntText(f.version), BoolText(f.tombstone);
    var fromVersion := version + ("," + (flag + "]"));
    Regroup("[", collection, "," + (id + ("," + fromVersion)));
    Regroup("[" + collection, ",", id + ("," + fromVersion));
    Regroup("[" + collection + ",", id, "," + fromVersion);
    Regroup("[" + collection + "," + id, ",", fromVersion);
    var front := "[" + collection + "," + id + ",";
    Regroup(front, version, "," + (flag + "]"));
    Regroup(front + version, ",", flag + "]");
    Regroup(front + version + ",", flag, "]");
  }

  lemma Regroup(a: string, b: string, c: string)
    ensures a + (b + c) == a + b + c
  {
  }

  /** And its text is hidden by the keystream of the encryption key: a bit of the i-th byte is
      flipped iff it is set in the hash of key, nonce and the counter i / 32. */
  lemma SealedText(p: Primitives, keys: GroupKeys, e: Edit, i: nat, k: nat) returns (blob: Bytes, c: Bytes)
    requires !e.tombstone && i < |e.plaintext| && i / 32 < 0x1_0000_0000_0000_0000 && k < 8
    ensures Base64Url.Decode(EncryptRecord(p, keys, e).ciphertext) == Some(blob) && i < |blob|
    ensures |c| == 8 && Aead.FromBigEndian(c) == i / 32
    ensures blob[i] / Aead.Pow2(k) % 2 != e.plaintext[i] / Aead.Pow2(k) % 2 <==>
            p.sha256(keys.kEnc + e.nonce + c)[i % 32] / Aead.Pow2(k) % 2 == 1
  {
    var aad := AadOf(e.slot, e.version, e.tombstone);
    blob := Aead.Encrypt(p, keys.kEnc, keys.kMac, e.nonce, e.plaintext, aad);
    Base64Url.RoundTrip(blob);
    c := Aead.EncryptedByte(p, keys.kEnc, keys.kMac, e.nonce, e.plaintext, aad, i, k);
  }

  /** From the device through the table and back: the row an encrypted record becomes
      decrypts to the edit's text. */
  lemma StoredRecordDecrypts(p: Primitives, keys: GroupKeys, e: Edit, seqNo: nat)
    ensures DecryptRecord(p, keys, ToPulled(e.slot, RowOf(EncryptRecord(p, keys, e), seqNo))) ==
            Some(if e.tombstone then [] else e.plaintext)
  {
    var aad := AadOf(e.slot, e.version, e.tombstone);
    var blob := Aead.Encrypt(p, keys.kEnc, keys.kMac, e.nonce, Body(e), aad);
    Base64Url.RoundTrip(e.nonce);
    Base64Url.RoundTrip(blob);
    Aead.DecryptIffEncrypted(p, keys.kEnc, keys.kMac, e.nonce, blob, aad, Body(e));
  }

  /** A record that decrypts is an encryption: of the text it yields, under its own nonce,
      slot, version and tombstone. */
  lemma DecryptsOnlyEncryptions(p: Primitives, keys: GroupKeys, r: Pulled)
    requires DecryptRecord(p, keys, r).Some?
    ensures Base64Url.Decode(r.nonce).Some?
    ensures Base64Url.Decode(r.ciphertext) ==
            Some(Aead.Encrypt(p, keys.kEnc, keys.kMac, Base64Url.Decode(r.nonce).value, DecryptRecord(p, keys, r).value,
                              AadOf(r.slot, r.version, r.tombstone)))
  {
    Aead.DecryptIffEncrypted(p, keys.kEnc, keys.kMac, Base64Url.Decode(r.nonce).value, Base64Url.Decode(r.ciphertext).value,
                             AadOf(r.slot, r.version, r.tombstone), DecryptRecord(p, keys, r).value);
  }

  /** A ciphertext bound to one slot, version and tombstone decrypts under another only if
      the MAC takes one value on two different inputs. */
  lemma RelabellingNeedsCollision(p: Primitives, keys: GroupKeys, e: Edit, r: Pulled) returns (m: Bytes, m': Bytes)
    requires |e.nonce| == NONCE_LEN
    requires r.nonce == Base64Url.Encode(e.nonce) && r.ciphertext == EncryptRecord(p, keys, e).ciphertext
    requires (r.slot, r.version, r.tombstone) != (e.slot, e.version, e.tombstone)
    requires DecryptRecord(p, keys, r).Some?
    ensures m != m' && p.hmac(keys.kMac, m) == p.hmac(keys.kMac, m')
  {
    var aad, aad' := AadOf(e.slot, e.version, e.tombstone), AadOf(r.slot, r.version, r.tombstone);
    var blob := Aead.Encrypt(p, keys.kEnc, keys.kMac, e.nonce, Body(e), aad);
    var ct := blob[..|blob| - DIGEST_LEN];
    Base64Url.RoundTrip(e.nonce);
    Base64Url.RoundTrip(blob);
    Aead.DecryptIffEncrypted(p, keys.kEnc, keys.kMac, e.nonce, blob, aad, Body(e));
    m, m' := aad + e.nonce + ct, aad' + e.nonce + ct;
    if m == m' {
      MacInputUniquelyDecodes(Fields(e.slot.collection, e.slot.id, e.version, e.tombstone), e.nonce, ct,
                              Fields(r.slot.collection, r.slot.id, r.version, r.tombstone), e.nonce, ct);
      assert false;
    }
  }
}
