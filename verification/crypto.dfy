/**
 Abstract cryptographic primitives of the vault.

 Key derivation (scrypt), AES-256-CBC with PKCS#7 padding and the base64url
 codec are library calls. They are modelled as arbitrary function values held
 in a `Primitives` value; every vault operation takes one as a parameter, so
 nothing is assumed about them except where a lemma asks for `Sound`.
 */
module Crypto {
  import opened Options

  type Bytes = seq<bv8>

  /** 16 bytes: the size of a salt and of an AES-CBC initialisation vector. */
  type Block = b: Bytes | |b| == 16 witness seq(16, _ => 0 as bv8)

  /** 32 bytes: the size of a derived key. */
  type Key = k: Bytes | |k| == 32 witness seq(32, _ => 0 as bv8)

  /** Base64url text of `IV ‖ ciphertext`, as stored in a record. */
  type Token = string

  datatype Primitives = Primitives(
    /** scrypt(master key, salt) with N = 2^14, r = 8, p = 1 and a 32-byte output. */
    deriveKey: (string, Bytes) -> Key,
    /** Encrypts a plaintext under a key with the given fresh IV. */
    encrypt: (string, Key, Block) -> Token,
    /** Decrypts a token; every failure (bad base64, bad length, bad padding) is `None`. */
    decrypt: (Token, Key) -> Option<string>,
    /** Base64url encoding of a salt. */
    saltEncode: Block -> string,
    /** Base64url decoding of a stored salt; `None` where the library raises. */
    saltDecode: string -> Option<Bytes>
  )

  /**
   The round-trip properties the libraries are trusted to have: a token made
   by `encrypt` decrypts back under the same key, and an encoded salt decodes
   back to the same bytes.
   */
  ghost predicate Sound(p: Primitives)
  {
    && (forall pt, k, iv :: p.decrypt(p.encrypt(pt, k, iv), k) == Some(pt))
    && (forall b :: p.saltDecode(p.saltEncode(b)) == Some(b))
  }
}
