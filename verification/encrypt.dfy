/**
 * The `encrypt_by_AES_GCM` class: key material taken from arguments or a
 * configuration file, single-shot AES-GCM over byte strings, and a text
 * transport that joins the three base64 fields of a result with a delimiter.
 */
module Encrypt {
  import opened ByteSeqs
  import opened Wrappers
  import opened Errors
  import opened Gcm
  import opened PyStrings
  import Utf8
  import Base64

  /** What `encrypt` returns and `decrypt` takes, in this order. */
  datatype Triple = Triple(iv: Bytes, ciphertext: Bytes, tag: Bytes)

  /** Python truthiness of an optional string argument: None and '' both count as missing. */
  predicate Given(arg: Option<string>) {
    arg.Some? && arg.value != ""
  }

  /** The configuration can stand in for missing arguments: it was read and has the section. */
  predicate Usable(config: Option<Config>) {
    config.Some? && "encrypt" in config.value
  }

  /** `config['encrypt'][option]`, a KeyError when the option is absent. */
  function Lookup(config: Option<Config>, option: string): (r: Result<string, Error>)
    requires Usable(config)
    ensures r.Ok? <==> option in config.value["encrypt"]
    ensures r.Ok? ==> r.value == config.value["encrypt"][option]
    ensures r.Err? ==> r.error == MissingOption(option)
  {
    if option in config.value["encrypt"] then Ok(config.value["encrypt"][option])
    else Err(MissingOption(option))
  }

  /**
   * An instance: the cipher primitive, the digest of the key string and the
   * encoded associated data. The fields are set once, by `New`.
   */
  datatype Codec = Codec(prim: Primitive, key: Bytes, associatedData: Bytes) {

    /** `encrypt(binary_str)`: `_encrypt` with this instance's key and associated data. */
    method Encrypt(binary: Bytes, iv: Bytes) returns (r: Result<Triple, Error>)
      requires |iv| == 12
      ensures r == SealTriple(prim, key, associatedData, iv, binary)
    {
      r := EncryptBytes(prim, key, binary, associatedData, iv);
    }

    /** `encrypts(plaintext)`: the string is encoded as UTF-8 first. */
    method Encrypts(text: string, iv: Bytes) returns (r: Result<Triple, Error>)
      requires |iv| == 12
      ensures r == SealTriple(prim, key, associatedData, iv, Utf8.Encode(text))
    {
      r := Encrypt(Utf8.Encode(text), iv);
    }

    /** `b64encrypt(binary_str)`: a text that decodes back to exactly the triple `encrypt` returns. */
    method B64Encrypt(binary: Bytes, iv: Bytes) returns (r: Result<string, Error>)
      requires |iv| == 12
      ensures var sealed := SealTriple(prim, key, associatedData, iv, binary);
        && (r.Ok? <==> sealed.Ok?)
        && (r.Ok? ==> r.value == B64Join(sealed.value) && B64Split(r.value) == sealed)
        && (r.Err? ==> r.error == sealed.error)
    {
      var sealed := Encrypt(binary, iv);
      if sealed.Err? {
        return Err(sealed.error);
      }
      TransportRoundTrip(sealed.value);
      r := Ok(B64Join(sealed.value));
    }

    /** `b64encrypts(plaintext)`. */
    method B64Encrypts(text: string, iv: Bytes) returns (r: Result<string, Error>)
      requires |iv| == 12
      ensures var sealed := SealTriple(prim, key, associatedData, iv, Utf8.Encode(text));
        && (r.Ok? <==> sealed.Ok?)
        && (r.Ok? ==> r.value == B64Join(sealed.value) && B64Split(r.value) == sealed)
        && (r.Err? ==> r.error == sealed.error)
    {
      r := B64Encrypt(Utf8.Encode(text), iv);
    }

    /** `decrypt(iv, ciphertext, tag)`: `_decrypt` with this instance's key and associated data. */
    method Decrypt(iv: Bytes, ciphertext: Bytes, tag: Bytes) returns (r: Result<Bytes, Error>)
      ensures r == OpenTriple(prim, key, associatedData, Triple(iv, ciphertext, tag))
    {
      r := DecryptBytes(prim, key, associatedData, iv, ciphertext, tag);
    }

    /** `decrypts(...)`: the plaintext must also be valid UTF-8. */
    method Decrypts(iv: Bytes, ciphertext: Bytes, tag: Bytes) returns (r: Result<string, Error>)
      ensures var plain := OpenTriple(prim, key, associatedData, Triple(iv, ciphertext, tag));
        && (plain.Err? ==> r == Err(plain.error))
        && (plain.Ok? && Utf8.Decode(plain.value).Some? ==> r == Ok(Utf8.Decode(plain.value).value))
        && (plain.Ok? && Utf8.Decode(plain.value).None? ==> r == Err(UnicodeError))
    {
      var plain := Decrypt(iv, ciphertext, tag);
      if plain.Err? {
        return Err(plain.error);
      }
      var text := Utf8.Decode(plain.value);
      r := if text.Some? then Ok(text.value) else Err(UnicodeError);
    }

    /** `b64decrypt(text)`: split, decode the parts, then `decrypt` them. */
    method B64Decrypt(text: string) returns (r: Result<Bytes, Error>)
      ensures B64Split(text).Err? ==> r == Err(B64Split(text).error)
      ensures B64Split(text).Ok? ==> r == OpenTriple(prim, key, associatedData, B64Split(text).value)
    {
      var parts := B64Split(text);
      if parts.Err? {
        return Err(parts.error);
      }
      var t := parts.value;
      r := Decrypt(t.iv, t.ciphertext, t.tag);
    }

    /** `b64decrypts(text)`. */
    method B64Decrypts(text: string) returns (r: Result<string, Error>)
      ensures var plain := if B64Split(text).Err? then Err(B64Split(text).error)
                            else OpenTriple(prim, key, associatedData, B64Split(text).value);
        && (plain.Err? ==> r == Err(plain.error))
        && (plain.Ok? && Utf8.Decode(plain.value).Some? ==> r == Ok(Utf8.Decode(plain.value).value))
        && (plain.Ok? && Utf8.Decode(plain.value).None? ==> r == Err(UnicodeError))
    {
      var plain := B64Decrypt(text);
      if plain.Err? {
        return Err(plain.error);
      }
      var s := Utf8.Decode(plain.value);
      r := if s.Some? then Ok(s.value) else Err(UnicodeError);
    }
  }

  /**
   * `encrypt_by_AES_GCM(key, associated_data, config_file, hash_func=...)`.
   * config is None when the file could not be read.
   */
  function New(prim: Primitive, hash: Bytes -> Bytes, key: Option<string>, associatedData: Option<string>,
               config: Option<Config>): (r: Result<Codec, Error>)
    ensures !(Given(key) && Given(associatedData)) && !Usable(config) ==> r == Err(ConfigUnavailable)
    ensures Given(key) && Given(associatedData) ==> r.Ok?
    ensures r.Ok? ==> r.value.prim == prim
    ensures r.Ok? && Given(key) ==> r.value.key == hash(Utf8.Encode(key.value))
    ensures r.Ok? && !Given(key) ==>
      (Usable(config) && "key" in config.value["encrypt"]
       && r.value.key == hash(Utf8.Encode(config.value["encrypt"]["key"])))
    ensures r.Ok? && Given(associatedData) ==> r.value.associatedData == Utf8.Encode(associatedData.value)
    ensures r.Ok? && !Given(associatedData) ==>
      (Usable(config) && "associated_data" in config.value["encrypt"]
       && r.value.associatedData == Utf8.Encode(config.value["encrypt"]["associated_data"]))
    ensures r.Err? && r.error != ConfigUnavailable ==>
      Usable(config) && (r.error == MissingOption("key") || r.error == MissingOption("associated_data"))
    ensures (&& Usable(config)
             && (Given(key) || "key" in config.value["encrypt"])
             && (Given(associatedData) || "associated_data" in config.value["encrypt"])) ==> r.Ok?
    ensures Usable(config) && !Given(key) && "key" !in config.value["encrypt"] ==> r == Err(MissingOption("key"))
    ensures r == Err(MissingOption("associated_data")) ==> Given(key) || "key" in config.value["encrypt"]
    ensures (&& Usable(config) && (Given(key) || "key" in config.value["encrypt"])
             && !Given(associatedData) && "associated_data" !in config.value["encrypt"]) ==>
      r == Err(MissingOption("associated_data"))
  {
    if !(Given(key) && Given(associatedData)) && !Usable(config) then Err(ConfigUnavailable)
    else
      var keyString := if Given(key) then Ok(key.value) else Lookup(config, "key");
      if keyString.Err? then Err(keyString.error)
      else
        var adString := if Given(associatedData) then Ok(associatedData.value) else Lookup(config, "associated_data");
        if adString.Err? then Err(adString.error)
        else Ok(Codec(prim, hash(Utf8.Encode(keyString.value)), Utf8.Encode(adString.value)))
  }

  /** What `_encrypt` produces: the iv it drew, the ciphertext and the tag, or the ValueError. */
  function SealTriple(prim: Primitive, key: Bytes, aad: Bytes, iv: Bytes, plaintext: Bytes): (r: Result<Triple, Error>)
    requires |iv| == 12
    ensures r.Ok? <==> ValidKeySize(key)
    ensures r.Err? ==> r.error == InvalidKeySize
    ensures r.Ok? ==> r.value.iv == iv && |r.value.ciphertext| == |plaintext| && |r.value.tag| == 16
    ensures r.Ok? ==> r.value.tag == prim.mac(key, iv, aad, r.value.ciphertext)
  {
    match ConstructionError(key, iv, None)
    case Some(e) => Err(e)
    case None =>
      var (c, t) := Seal(prim, key, iv, aad, plaintext);
      Ok(Triple(iv, c, t))
  }

  /** What `_decrypt` produces: the plaintext, or the error that stops it. */
  function OpenTriple(prim: Primitive, key: Bytes, aad: Bytes, t: Triple): (r: Result<Bytes, Error>)
    ensures r.Ok? <==> ConstructionError(key, t.iv, Some(t.tag)).None? && t.tag == prim.mac(key, t.iv, aad, t.ciphertext)
    ensures r.Ok? ==> |r.value| == |t.ciphertext|
    ensures ConstructionError(key, t.iv, Some(t.tag)).None? && r.Err? ==> r.error == InvalidTag
    ensures ConstructionError(key, t.iv, Some(t.tag)).Some? ==> r == Err(ConstructionError(key, t.iv, Some(t.tag)).value)
  {
    match ConstructionError(key, t.iv, Some(t.tag))
    case Some(e) => Err(e)
    case None => Open(prim, key, t.iv, aad, t.ciphertext, t.tag)
  }

  /** `_encrypt(key, plaintext, associated_data)`, with the random iv passed in. */
  method EncryptBytes(prim: Primitive, key: Bytes, plaintext: Bytes, aad: Bytes, iv: Bytes)
    returns (r: Result<Triple, Error>)
    requires |iv| == 12
    ensures r == SealTriple(prim, key, aad, iv, plaintext)
  {
    var err := ConstructionError(key, iv, None);
    if err.Some? {
      return Err(err.value);
    }
    var encryptor := new Context.Encryptor(prim, key, iv);
    encryptor.AuthenticateAdditionalData(aad);
    var body := encryptor.Update(plaintext);
    assert encryptor.aad == aad && encryptor.ciphertext == body;
    var last := encryptor.Finalize();
    assert body + last.value == body;
    assert Seal(prim, key, iv, aad, plaintext) == (body, encryptor.tag.value);
    r := Ok(Triple(iv, body + last.value, encryptor.tag.value));
  }

  /**
   * `_decrypt(key, associated_data, iv, ciphertext, tag)`. The decrypted
   * bytes are returned only after `Finalize` has checked the tag; on a
   * mismatch they are dropped and only the error comes back.
   */
  method DecryptBytes(prim: Primitive, key: Bytes, aad: Bytes, iv: Bytes, ciphertext: Bytes, tag: Bytes)
    returns (r: Result<Bytes, Error>)
    ensures r == OpenTriple(prim, key, aad, Triple(iv, ciphertext, tag))
  {
    var err := ConstructionError(key, iv, Some(tag));
    if err.Some? {
      return Err(err.value);
    }
    var decryptor := new Context.Decryptor(prim, key, iv, tag);
    decryptor.AuthenticateAdditionalData(aad);
    var body := decryptor.Update(ciphertext);
    assert decryptor.aad == aad && decryptor.ciphertext == ciphertext;
    var last := decryptor.Finalize();
    if last.Err? {
      return Err(last.error);
    }
    assert body + last.value == body;
    r := Ok(body + last.value);
  }

  /** Sealing then opening with the same key and associated data gives the plaintext back. */
  lemma SealOpen(prim: Primitive, key: Bytes, aad: Bytes, iv: Bytes, plaintext: Bytes)
    requires |iv| == 12 && ValidKeySize(key)
    ensures SealTriple(prim, key, aad, iv, plaintext).Ok?
    ensures OpenTriple(prim, key, aad, SealTriple(prim, key, aad, iv, plaintext).value) == Ok(plaintext)
  {
    OpenSeal(prim, key, iv, aad, plaintext);
  }

  /** The delimiter `b64encrypt` joins with: backslash, backslash, 'n'. */
  const Delimiter: string := "\\\\n"

  /** `'\\\\n'.join(b64encode(x).decode() for x in triple)`. */
  function B64Join(t: Triple): string {
    Join(Fields(t), Delimiter)
  }

  /** `b64decode` of every part, in order; None at the first part that is not base64. */
  function DecodeAll(parts: seq<string>): (r: Option<seq<Bytes>>)
    ensures r.Some? <==> forall k :: 0 <= k < |parts| ==> Base64.Decode(parts[k]).Some?
    ensures r.Some? ==> |r.value| == |parts|
    ensures r.Some? ==> forall k :: 0 <= k < |parts| ==> Base64.Decode(parts[k]) == Some(r.value[k])
  {
    if parts == [] then Some([])
    else
      match Base64.Decode(parts[0])
      case None => None
      case Some(b) =>
        match DecodeAll(parts[1..])
        case None => None
        case Some(rest) => Some([b] + rest)
  }

  /**
   * The argument list `b64decrypt` hands to `decrypt`: the parts between
   * delimiters, each base64-decoded. A part that is not base64 fails first;
   * then anything but three parts is a wrong argument count.
   */
  function B64Split(text: string): (r: Result<Triple, Error>)
    ensures var parts := Split(text, Delimiter);
      && (r.Ok? <==> |parts| == 3 && DecodeAll(parts).Some?)
      && (DecodeAll(parts).None? ==> r == Err(Base64Error))
      && (DecodeAll(parts).Some? && |parts| != 3 ==> r == Err(ArgumentCount(|parts|)))
      && (r.Ok? ==>
            (Base64.Decode(parts[0]) == Some(r.value.iv)
             && Base64.Decode(parts[1]) == Some(r.value.ciphertext)
             && Base64.Decode(parts[2]) == Some(r.value.tag)))
  {
    var parts := Split(text, Delimiter);
    match DecodeAll(parts)
    case None => Err(Base64Error)
    case Some(fields) =>
      if |fields| != 3 then Err(ArgumentCount(|fields|))
      else Ok(Triple(fields[0], fields[1], fields[2]))
  }

  /** Base64 text never holds a backslash, so the delimiter cannot occur inside a field. */
  lemma NoBackslash(b: Bytes)
    ensures '\\' !in Base64.Encode(b)
  {
    var e := Base64.Encode(b);
    Base64.EncodeAlphabet(b);
    forall i | 0 <= i < |e|
      ensures e[i] != '\\'
    {
      assert Base64.IsEncodingChar(e[i]);
    }
  }

  /** The three fields of `b64encrypt`, in order. */
  function Fields(t: Triple): seq<string> {
    [Base64.Encode(t.iv), Base64.Encode(t.ciphertext), Base64.Encode(t.tag)]
  }

  /** Splitting the joined text gives back the three fields. */
  lemma SplitFields(t: Triple)
    ensures Split(B64Join(t), Delimiter) == Fields(t)
  {
    NoBackslash(t.iv);
    NoBackslash(t.ciphertext);
    NoBackslash(t.tag);
    assert Delimiter[0] == '\\';
    SplitJoin(Fields(t), Delimiter);
  }

  /** Decoding the three fields gives back the triple's byte strings. */
  lemma DecodeFields(t: Triple)
    ensures DecodeAll(Fields(t)) == Some([t.iv, t.ciphertext, t.tag])
  {
    Base64.DecodeEncode(t.iv);
    Base64.DecodeEncode(t.ciphertext);
    Base64.DecodeEncode(t.tag);
    var fields := DecodeAll(Fields(t));
    assert fields.Some?;
    assert fields.value == [t.iv, t.ciphertext, t.tag];
  }

  /** `b64decrypt` reads back exactly the triple `b64encrypt` wrote. */
  lemma TransportRoundTrip(t: Triple)
    ensures B64Split(B64Join(t)) == Ok(t)
  {
    SplitFields(t);
    DecodeFields(t);
  }
}
