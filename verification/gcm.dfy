/**
 * AES in Galois/Counter Mode (NIST SP 800-38D) as the `cryptography`
 * package exposes it: a cipher context that is fed associated data, then
 * data through `update`, and is closed by `finalize`.
 *
 * The block cipher and GHASH are not modelled. A `Primitive` supplies them
 * as two arbitrary functions, and every property in this project holds for
 * every choice of them:
 *   - keystream(key, iv, i) is byte i of the counter-mode keystream;
 *   - mac(key, iv, aad, ciphertext) is the 16-byte authentication tag.
 * What the model keeps is the shape of GCM: encryption and decryption are
 * the same exclusive or with the keystream (so no padding and length is
 * preserved), and the tag covers the associated data and the ciphertext.
 */
module Gcm {
  import opened ByteSeqs
  import opened Wrappers
  import opened Errors

  type Block = b: Bytes | |b| == 16 witness Zeros(16)

  datatype Primitive = Primitive(
    keystream: (Bytes, Bytes, nat) -> byte,
    mac: (Bytes, Bytes, Bytes, Bytes) -> Block)

  /** `algorithms.AES` accepts 128-, 192-, 256- and (for XTS) 512-bit keys. */
  predicate AesKeySize(key: Bytes) {
    |key| == 16 || |key| == 24 || |key| == 32 || |key| == 64
  }

  /** The keys `Cipher` accepts for GCM: 128, 192 or 256 bits. */
  predicate ValidKeySize(key: Bytes) {
    |key| == 16 || |key| == 24 || |key| == 32
  }

  /** `modes.GCM` accepts initialisation vectors of 8 to 128 bytes. */
  predicate ValidIvSize(iv: Bytes) {
    8 <= |iv| <= 128
  }

  /**
   * The ValueError, if any, raised while building `Cipher(AES(key), GCM(iv, tag))`
   * and its context, in the order the library checks: `algorithms.AES` the
   * key size, `modes.GCM` the iv and a tag shorter than 16 bytes, `Cipher`
   * a 512-bit key (allowed for XTS only), and the backend a tag longer
   * than 16 bytes.
   */
  function ConstructionError(key: Bytes, iv: Bytes, tag: Option<Bytes>): (r: Option<Error>)
    ensures r.None? <==> ValidKeySize(key) && ValidIvSize(iv) && (tag.Some? ==> |tag.value| == 16)
    ensures r.Some? ==> r.value in {InvalidKeySize, InvalidIvSize, InvalidTagSize}
    ensures !AesKeySize(key) ==> r == Some(InvalidKeySize)
    ensures r == Some(InvalidIvSize) <==> AesKeySize(key) && !ValidIvSize(iv)
    ensures AesKeySize(key) && ValidIvSize(iv) && tag.Some? && |tag.value| < 16 ==> r == Some(InvalidTagSize)
    ensures r == Some(InvalidKeySize) ==> !ValidKeySize(key)
    ensures r == Some(InvalidTagSize) ==> tag.Some? && |tag.value| != 16
  {
    if !AesKeySize(key) then Some(InvalidKeySize)
    else if !ValidIvSize(iv) then Some(InvalidIvSize)
    else if tag.Some? && |tag.value| < 16 then Some(InvalidTagSize)
    else if !ValidKeySize(key) then Some(InvalidKeySize)
    else if tag.Some? && |tag.value| > 16 then Some(InvalidTagSize)
    else None
  }

  /** Counter mode over data that starts at position offset of the stream. */
  function Ctr(p: Primitive, key: Bytes, iv: Bytes, offset: nat, data: Bytes): (r: Bytes)
    ensures |r| == |data|
    decreases |data|
  {
    if data == [] then []
    else [Xor(data[0], p.keystream(key, iv, offset))] + Ctr(p, key, iv, offset + 1, data[1..])
  }

  /** Decryption undoes encryption: the same keystream is applied twice. */
  lemma {:induction false} CtrTwice(p: Primitive, key: Bytes, iv: Bytes, offset: nat, data: Bytes)
    ensures Ctr(p, key, iv, offset, Ctr(p, key, iv, offset, data)) == data
    decreases |data|
  {
    if data != [] {
      var c := Ctr(p, key, iv, offset, data);
      XorTwice(data[0], p.keystream(key, iv, offset));
      assert c[1..] == Ctr(p, key, iv, offset + 1, data[1..]);
      CtrTwice(p, key, iv, offset + 1, data[1..]);
      assert data == [data[0]] + data[1..];
    }
  }

  /** Feeding data in pieces gives the same bytes as feeding it at once. */
  lemma {:induction false} CtrSplit(p: Primitive, key: Bytes, iv: Bytes, offset: nat, a: Bytes, b: Bytes)
    ensures Ctr(p, key, iv, offset, a + b)
         == Ctr(p, key, iv, offset, a) + Ctr(p, key, iv, offset + |a|, b)
    decreases |a|
  {
    if a != [] {
      assert (a + b)[0] == a[0] && (a + b)[1..] == a[1..] + b;
      CtrSplit(p, key, iv, offset + 1, a[1..], b);
      var x := [Xor(a[0], p.keystream(key, iv, offset))];
      assert Ctr(p, key, iv, offset, a + b) == x + Ctr(p, key, iv, offset + 1, a[1..] + b);
      assert Ctr(p, key, iv, offset, a) == x + Ctr(p, key, iv, offset + 1, a[1..]);
    } else {
      assert a + b == b;
    }
  }

  /** Encryption of a whole message: its ciphertext and tag. */
  function Seal(p: Primitive, key: Bytes, iv: Bytes, aad: Bytes, plaintext: Bytes): (Bytes, Block) {
    var c := Ctr(p, key, iv, 0, plaintext);
    (c, p.mac(key, iv, aad, c))
  }

  /** Decryption of a whole message: the plaintext only when the tag verifies. */
  function Open(p: Primitive, key: Bytes, iv: Bytes, aad: Bytes, ciphertext: Bytes, tag: Bytes): Result<Bytes, Error> {
    if tag == p.mac(key, iv, aad, ciphertext) then Ok(Ctr(p, key, iv, 0, ciphertext))
    else Err(InvalidTag)
  }

  /** Opening what was sealed under the same key, iv and associated data gives the plaintext back. */
  lemma OpenSeal(p: Primitive, key: Bytes, iv: Bytes, aad: Bytes, plaintext: Bytes)
    ensures Open(p, key, iv, aad, Seal(p, key, iv, aad, plaintext).0, Seal(p, key, iv, aad, plaintext).1) == Ok(plaintext)
  {
    CtrTwice(p, key, iv, 0, plaintext);
  }

  /**
   * One cipher context. An encryptor has no expected tag and publishes its
   * tag after `Finalize`; a decryptor compares the tag it was built with
   * against the one it computes in `Finalize`.
   */
  class Context {
    const prim: Primitive
    const key: Bytes
    const iv: Bytes
    const expected: Option<Block>
    var aad: Bytes
    var ciphertext: Bytes   // the ciphertext seen so far, which the tag covers
    var finalized: bool
    var tag: Option<Block>

    /** `Cipher(AES(key), GCM(iv)).encryptor()`. */
    constructor Encryptor(prim: Primitive, key: Bytes, iv: Bytes)
      requires ConstructionError(key, iv, None).None?
      ensures this.prim == prim && this.key == key && this.iv == iv && expected.None?
      ensures aad == [] && ciphertext == [] && !finalized && tag.None?
    {
      this.prim, this.key, this.iv, expected := prim, key, iv, None;
      aad, ciphertext, finalized, tag := [], [], false, None;
    }

    /** `Cipher(AES(key), GCM(iv, tag)).decryptor()`. */
    constructor Decryptor(prim: Primitive, key: Bytes, iv: Bytes, tag: Block)
      requires ConstructionError(key, iv, Some(tag)).None?
      ensures this.prim == prim && this.key == key && this.iv == iv && expected == Some(tag)
      ensures aad == [] && ciphertext == [] && !finalized && this.tag.None?
    {
      this.prim, this.key, this.iv, expected := prim, key, iv, Some(tag);
      aad, ciphertext, finalized, this.tag := [], [], false, None;
    }

    /** Associated data is authenticated, not encrypted, and must come before any data. */
    method AuthenticateAdditionalData(data: Bytes)
      requires !finalized && ciphertext == []
      modifies this`aad
      ensures aad == old(aad) + data
    {
      aad := aad + data;
    }

    /** The bytes for the next piece of data; nothing is held back. */
    method Update(data: Bytes) returns (out: Bytes)
      requires !finalized
      modifies this`ciphertext
      ensures out == Ctr(prim, key, iv, |old(ciphertext)|, data)
      ensures ciphertext == old(ciphertext) + if expected.None? then out else data
    {
      out := Ctr(prim, key, iv, |ciphertext|, data);
      ciphertext := ciphertext + if expected.None? then out else data;
    }

    /**
     * Closes the context. It emits no further bytes; an encryptor now has
     * its tag, a decryptor fails with InvalidTag unless the tags agree.
     */
    method Finalize() returns (r: Result<Bytes, Error>)
      requires !finalized
      modifies this`finalized, this`tag
      ensures finalized
      ensures expected.None? ==> r == Ok([]) && tag == Some(prim.mac(key, iv, aad, ciphertext))
      ensures expected.Some? ==> tag == old(tag)
      ensures expected.Some? ==>
        r == if expected.value == prim.mac(key, iv, aad, ciphertext) then Ok([]) else Err(InvalidTag)
    {
      finalized := true;
      var computed := prim.mac(key, iv, aad, ciphertext);
      if expected.None? {
        tag := Some(computed);
        r := Ok([]);
      } else if expected.value == computed {
        r := Ok([]);
      } else {
        r := Err(InvalidTag);
      }
    }
  }
}
