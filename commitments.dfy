/**
 * `generateRandomNumber`: a value in `0..maxValue` taken from 32 random
 * bytes, the HMAC-SHA256 keyed with those bytes over the empty message
 * (disclosed before the player answers) and the bytes themselves as a hex
 * key (disclosed after).
 */
module Commitments {
  import opened Wrappers
  import opened Hex

  /**
   * HMAC-SHA256 of RFC 2104 as a function of (key, message) to the 32-byte
   * digest. Its internals are not modelled: the properties below hold for
   * any such function, and binding for any that is injective on 32-byte keys.
   */
  type Hmac = (seq<Byte>, seq<Byte>) -> seq<Byte>

  /** `crypto.randomBytes(32)`. */
  const SECRET_LENGTH: nat := 32

  /**
   * The message the digest covers: `createHmac('sha256', randomBytes)` is
   * never given data with `update`, so `digest` is over the empty message.
   */
  const EMPTY_MESSAGE: seq<Byte> := []

  /** The record `generateRandomNumber` returns. */
  datatype Commitment = Commitment(randomInt: nat, hmac: string, key: string)

  /**
   * `generateRandomNumber(maxValue)` with the random bytes passed in. The
   * value lies in `0..maxValue`; the key is 64 hex characters that decode to
   * the random bytes; and the pair (hmac, key) passes the player's check, which
   * also recovers the value.
   */
  function GenerateRandomNumber(maxValue: nat, randomBytes: seq<Byte>, hmacSha256: Hmac): (c: Commitment)
    requires |randomBytes| == SECRET_LENGTH
    ensures c.randomInt <= maxValue
    ensures |c.key| == 2 * SECRET_LENGTH
    ensures Decode(c.key) == Some(randomBytes)
    ensures Verifies(c.hmac, c.key, hmacSha256)
    ensures RevealedValue(c.key, maxValue) == Some(c.randomInt)
  {
    DecodeEncode(randomBytes);
    Commitment(randomBytes[0] % (maxValue + 1), Encode(hmacSha256(randomBytes, EMPTY_MESSAGE)), Encode(randomBytes))
  }

  /**
   * The check a player runs after the reveal: the key must decode to 32
   * bytes, and the HMAC keyed with those bytes over the empty message must
   * be the digest shown earlier.
   */
  predicate Verifies(hmacHex: string, keyHex: string, hmacSha256: Hmac) {
    match Decode(keyHex)
    case None => false
    case Some(secret) => |secret| == SECRET_LENGTH && Encode(hmacSha256(secret, EMPTY_MESSAGE)) == hmacHex
  }

  /** The value a revealed key stands for under the same reduction. */
  function RevealedValue(keyHex: string, maxValue: nat): Option<nat> {
    match Decode(keyHex)
    case Some(secret) => if secret == [] then None else Some(secret[0] % (maxValue + 1))
    case None => None
  }

  /**
   * What the primitive is trusted for: two different 32-byte keys never give
   * the same digest of the empty message. (Only keys of the drawn length are
   * involved, so this asks nothing of keys of other lengths.)
   */
  ghost predicate KeyInjective(hmacSha256: Hmac) {
    forall a: seq<Byte>, b: seq<Byte> |
      |a| == SECRET_LENGTH && |b| == SECRET_LENGTH && hmacSha256(a, EMPTY_MESSAGE) == hmacSha256(b, EMPTY_MESSAGE) ::
      a == b
  }

  /**
   * Binding: if the primitive is injective on 32-byte keys, the only
   * key that passes the check against a disclosed digest is the one
   * generated with it, so the value cannot be changed after the answer.
   */
  lemma CommitmentBinds(maxValue: nat, randomBytes: seq<Byte>, hmacSha256: Hmac, keyHex: string)
    requires |randomBytes| == SECRET_LENGTH
    requires KeyInjective(hmacSha256)
    requires Verifies(GenerateRandomNumber(maxValue, randomBytes, hmacSha256).hmac, keyHex, hmacSha256)
    ensures keyHex == GenerateRandomNumber(maxValue, randomBytes, hmacSha256).key
    ensures RevealedValue(keyHex, maxValue) == Some(randomBytes[0] % (maxValue + 1))
  {
    var c := GenerateRandomNumber(maxValue, randomBytes, hmacSha256);
    var secret := Decode(keyHex).value;
    EncodeInjective(hmacSha256(secret, EMPTY_MESSAGE), hmacSha256(randomBytes, EMPTY_MESSAGE));
    assert secret == randomBytes;
    EncodeDecode(keyHex);
  }
}
