/** Signing secrets at rest (`SecretCipher` in src/crypto.rs). The cipher and the UTF-8 test are
    parameters; the storage format around them is modelled. */
module SecretStore {
  import opened Bits
  import opened Collections
  import Hex

  const PLAINTEXT_PREFIX: string := "v1.plain."
  const SEALED_PREFIX: string := "v1.xchacha20poly1305."
  const NONCE_LEN: nat := 24

  datatype CryptoError = MalformedCiphertext | DecryptionFailed | EncryptionFailed
  datatype Result<T> = Ok(value: T) | Err(error: CryptoError)

  /** An authenticated cipher under one key; either direction may fail. */
  datatype Aead = Aead(
    encrypt: (seq<Byte>, seq<Byte>) -> Result<seq<Byte>>,
    decrypt: (seq<Byte>, seq<Byte>) -> Result<seq<Byte>>)

  datatype Cipher = Plaintext | Sealed(aead: Aead)

  /** Decryption undoes encryption under the same nonce. */
  ghost predicate Inverts(a: Aead) {
    forall nonce, m :: a.encrypt(nonce, m).Ok? ==> a.decrypt(nonce, a.encrypt(nonce, m).value) == Ok(m)
  }

  function Seal(c: Cipher, nonce: seq<Byte>, secret: seq<Byte>): Result<string> {
    match c
    case Plaintext => Ok(PLAINTEXT_PREFIX + Hex.Encode(secret))
    case Sealed(a) =>
      var ciphertext := a.encrypt(nonce, secret);
      if ciphertext.Err? then Err(EncryptionFailed)
      else Ok(SEALED_PREFIX + Hex.Encode(nonce) + "." + Hex.Encode(ciphertext.value))
  }

  function AsString(bytes: seq<Byte>, isUtf8: seq<Byte> -> bool): Result<seq<Byte>> {
    if isUtf8(bytes) then Ok(bytes) else Err(MalformedCiphertext)
  }

  function Open(c: Cipher, stored: string, isUtf8: seq<Byte> -> bool): Result<seq<Byte>> {
    if PLAINTEXT_PREFIX <= stored then
      match Hex.Decode(stored[|PLAINTEXT_PREFIX|..])
      case None => Err(MalformedCiphertext)
      case Some(bytes) => AsString(bytes, isUtf8)
    else if !(SEALED_PREFIX <= stored) then Err(MalformedCiphertext)
    else
      match SplitOnce(stored[|SEALED_PREFIX|..], '.')
      case None => Err(MalformedCiphertext)
      case Some(parts) => OpenParts(c, Hex.Decode(parts.0), Hex.Decode(parts.1), isUtf8)
  }

  function OpenParts(c: Cipher, nonce: Option<seq<Byte>>, ciphertext: Option<seq<Byte>>,
                     isUtf8: seq<Byte> -> bool): Result<seq<Byte>>
  {
    if nonce == None || |nonce.value| != NONCE_LEN || ciphertext == None then Err(MalformedCiphertext)
    else if c.Plaintext? then Err(DecryptionFailed)
    else
      var secret := c.aead.decrypt(nonce.value, ciphertext.value);
      if secret.Err? then Err(DecryptionFailed) else AsString(secret.value, isUtf8)
  }

  lemma PrefixDropped(p: string, s: string)
    ensures p <= p + s && (p + s)[|p|..] == s
  {
  }

  /** The two formats cannot be taken for one another: they differ at the first letter after `v1.`. */
  lemma FormatsDisjoint(s: string)
    ensures !(PLAINTEXT_PREFIX <= SEALED_PREFIX + s)
  {
    assert (SEALED_PREFIX + s)[3] == 'x' && PLAINTEXT_PREFIX[3] == 'p';
  }

  lemma {:induction false} NoDots(bytes: seq<Byte>)
    ensures '.' !in Hex.Encode(bytes)
  {
    Hex.EncodeIsLower(bytes);
  }

  /** A sealed row reaches the cipher with the nonce and ciphertext it was built from. */
  lemma {:induction false} SealedParts(c: Cipher, nonce: seq<Byte>, ciphertext: seq<Byte>, isUtf8: seq<Byte> -> bool)
    ensures Open(c, SEALED_PREFIX + Hex.Encode(nonce) + "." + Hex.Encode(ciphertext), isUtf8)
         == OpenParts(c, Some(nonce), Some(ciphertext), isUtf8)
  {
    hide Hex.Encode, Hex.Decode, OpenParts, SplitOnce;
    var n, t := Hex.Encode(nonce), Hex.Encode(ciphertext);
    var body := n + "." + t;
    assert SEALED_PREFIX + n + "." + t == SEALED_PREFIX + body;
    PrefixDropped(SEALED_PREFIX, body);
    FormatsDisjoint(body);
    NoDots(nonce);
    SplitAtFirst(n, '.', t);
    Hex.RoundTrip(nonce);
    Hex.RoundTrip(ciphertext);
  }

  /** Whatever `seal` writes, `open` under the same cipher reads back. */
  lemma OpenSeal(c: Cipher, nonce: seq<Byte>, secret: seq<Byte>, isUtf8: seq<Byte> -> bool)
    requires |nonce| == NONCE_LEN && isUtf8(secret) && (c.Sealed? ==> Inverts(c.aead))
    ensures Seal(c, nonce, secret).Ok? ==> Open(c, Seal(c, nonce, secret).value, isUtf8) == Ok(secret)
    ensures Seal(c, nonce, secret).Err? <==> c.Sealed? && c.aead.encrypt(nonce, secret).Err?
  {
    match c
    case Plaintext => PlainOpensAnywhere(c, nonce, secret, isUtf8);
    case Sealed(a) =>
      hide Open, Hex.Encode;
      if a.encrypt(nonce, secret).Ok? {
        SealedParts(c, nonce, a.encrypt(nonce, secret).value, isUtf8);
      }
  }

  /** Turning encryption on loses nothing: a row stored plainly opens under every cipher. */
  lemma PlainOpensAnywhere(c: Cipher, nonce: seq<Byte>, secret: seq<Byte>, isUtf8: seq<Byte> -> bool)
    requires isUtf8(secret)
    ensures Open(c, Seal(Plaintext, nonce, secret).value, isUtf8) == Ok(secret)
  {
    hide Hex.Encode, Hex.Decode;
    PrefixDropped(PLAINTEXT_PREFIX, Hex.Encode(secret));
    Hex.RoundTrip(secret);
  }

  /** Turning it off, or changing the key, is reported as a failed decryption and never as a malformed
      row, whatever secret the row holds. */
  lemma WrongKeyIsReported(c: Cipher, other: Aead, nonce: seq<Byte>, secret: seq<Byte>, isUtf8: seq<Byte> -> bool)
    requires |nonce| == NONCE_LEN && other.encrypt(nonce, secret).Ok?
    requires c.Sealed? ==> c.aead.decrypt(nonce, other.encrypt(nonce, secret).value).Err?
    ensures Open(c, Seal(Sealed(other), nonce, secret).value, isUtf8) == Err(DecryptionFailed)
  {
    hide Open, Hex.Encode;
    SealedParts(c, nonce, other.encrypt(nonce, secret).value, isUtf8);
  }
}
