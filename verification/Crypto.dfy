/** The cryptographic and encoding primitives the vault is built on, as a record
    of functions together with the laws the vault relies on. Every vault theorem
    is stated for an arbitrary lawful record. */
module Crypto {
  import opened Wrappers
  import opened Versions

  newtype byte = x: int | 0 <= x < 256

  type Bytes = seq<byte>

  /** X25519 keys as used by age. */
  datatype Recipient = Recipient(point: Bytes)
  datatype Identity = Identity(scalar: Bytes)

  predicate IsUuidText(s: string) {
    && |s| == 36
    && forall i :: 0 <= i < |s| ==> '0' <= s[i] <= '9' || 'a' <= s[i] <= 'f' || s[i] == '-'
  }

  type UuidText = s: string | IsUuidText(s) witness "00000000-0000-0000-0000-000000000000"

  /** A UUID, represented by its canonical text. */
  datatype Uuid = Uuid(text: UuidText)

  datatype Item = Item(id: Uuid, description: string, peer: Option<string>, checksum: Bytes, modifiedAt: int)

  datatype Primitives = Primitives(
    sha256: Bytes -> Bytes,
    hex: Bytes -> Bytes,
    hmac: (Bytes, Bytes) -> Bytes,
    // AES-GCM: key, nonce, text
    seal: (Bytes, Bytes, Bytes) -> Bytes,
    unseal: (Bytes, Bytes, Bytes) -> Option<Bytes>,
    // age: recipients, randomness, plaintext
    encrypt: (seq<Recipient>, Bytes, Bytes) -> Bytes,
    decrypt: (Identity, Bytes) -> Option<Bytes>,
    recipientOf: Identity -> Recipient,
    showRecipient: Recipient -> Bytes,
    parseRecipient: Bytes -> Option<Recipient>,
    showIdentity: Identity -> Bytes,
    parseIdentity: Bytes -> Option<Identity>,
    // JSON
    encodeItem: Item -> Bytes,
    decodeItem: Bytes -> Option<Item>,
    showVersion: Version -> Bytes,
    parseVersion: Bytes -> Option<Version>)

  ghost predicate Lawful(p: Primitives) {
    && (forall m :: |p.sha256(m)| == 32)
    && (forall m :: |p.hex(m)| == 2 * |m|)
    && (forall k, m :: |p.hmac(k, m)| == 32)
    && (forall k, n, m :: p.unseal(k, n, p.seal(k, n, m)) == Some(m))
    && (forall k, k', n, m :: k != k' ==> p.unseal(k', n, p.seal(k, n, m)) == None)
    && (forall rs, n, m, id ::
          p.decrypt(id, p.encrypt(rs, n, m)) == if p.recipientOf(id) in rs then Some(m) else None)
    && (forall r :: p.parseRecipient(p.showRecipient(r)) == Some(r))
    && (forall id :: p.parseIdentity(p.showIdentity(id)) == Some(id))
    && (forall i :: p.decodeItem(p.encodeItem(i)) == Some(i))
    && (forall v :: p.parseVersion(p.showVersion(v)) == Some(v))
  }

  /** The checksum recorded for a value. */
  function Sum(p: Primitives, data: Bytes): Bytes {
    p.hex(p.sha256(data))
  }

  /** The metadata HMAC secret is derived from the identity. */
  function HmacSecret(p: Primitives, id: Identity): Bytes {
    p.sha256(p.showIdentity(id))
  }

  function RecoveryHash(p: Primitives, r: Recipient, secret: Bytes): Bytes {
    Sum(p, p.showRecipient(r) + secret)
  }
}
