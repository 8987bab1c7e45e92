/**
 * The `AESGCMEncrypt` streaming container: a 36-byte header (version, iv,
 * tag) followed by the ciphertext, written chunk by chunk; the tag slot is
 * first filled with zeros and patched once the whole body is written.
 */
module AioEncrypt {
  import opened ByteSeqs
  import opened Wrappers
  import opened Errors
  import opened Gcm
  import Encrypt

  const Version: nat := 1
  /** `struct.calcsize('<Q12s16s')`. */
  const HeaderSize: nat := 36
  /** `struct.calcsize('Q12s')`: where the tag starts. */
  const TagOffset: nat := 20

  datatype Header = Header(version: nat, iv: Bytes, tag: Bytes)

  /** `struct.pack('<Q12s16s', version, iv, tag)`: iv and tag are cut or zero-padded to their slots. */
  function PackHeader(h: Header): (r: Bytes)
    requires h.version < Pow256(8)
    ensures |r| == HeaderSize
    ensures DecodeLE(r[..8]) == h.version
    ensures r[8..TagOffset] == PackFixed(h.iv, 12) && r[TagOffset..] == PackFixed(h.tag, 16)
  {
    var v := EncodeLE(h.version, 8);
    DecodeEncodeLE(h.version, 8);
    var r := v + PackFixed(h.iv, 12) + PackFixed(h.tag, 16);
    assert r[..8] == v;
    r
  }

  /** `struct.unpack('<Q12s16s', data)`: anything but exactly 36 bytes is a struct.error. */
  function UnpackHeader(data: Bytes): (r: Result<Header, Error>)
    ensures r.Ok? <==> |data| == HeaderSize
    ensures r.Err? ==> r.error == StructError
    ensures r.Ok? ==> r.value.version == DecodeLE(data[..8]) && r.value.version < Pow256(8)
    ensures r.Ok? ==> r.value.iv == data[8..TagOffset] && r.value.tag == data[TagOffset..HeaderSize]
  {
    if |data| != HeaderSize then Err(StructError)
    else Ok(Header(DecodeLE(data[..8]), data[8..TagOffset], data[TagOffset..HeaderSize]))
  }

  /** Unpacking a packed header gives the same version, iv and tag. */
  lemma UnpackPack(h: Header)
    requires h.version < Pow256(8) && |h.iv| == 12 && |h.tag| == 16
    ensures UnpackHeader(PackHeader(h)) == Ok(h)
  {
    var r := PackHeader(h);
    PackFixedExact(h.iv);
    PackFixedExact(h.tag);
    assert r[TagOffset..HeaderSize] == r[TagOffset..];
  }

  /** Packing an unpacked header gives the same 36 bytes. */
  lemma PackUnpack(data: Bytes)
    requires |data| == HeaderSize
    ensures PackHeader(UnpackHeader(data).value) == data
  {
    var h := UnpackHeader(data).value;
    EncodeDecodeLE(data[..8]);
    PackFixedExact(h.iv);
    PackFixedExact(h.tag);
    assert data == data[..8] + data[8..TagOffset] + data[TagOffset..];
  }

  /** The version field of the first write: 1 as eight little-endian bytes. */
  lemma VersionBytes()
    ensures EncodeLE(Version, 8) == [1, 0, 0, 0, 0, 0, 0, 0]
  {
  }

  /**
   * The chunk sizes for which the chunk loop reads the input to its end: a
   * positive size, or -1 for "everything at once". A size of 0 makes the
   * first read empty, and a size below -1 makes it raise.
   */
  predicate ReadsAll(chunkSize: int) {
    chunkSize > 0 || chunkSize == -1
  }

  /** What the chunk loop consumes: all the input when it reads to the end, nothing otherwise. */
  function Consumed(input: Bytes, chunkSize: int): Bytes {
    if ReadsAll(chunkSize) then input else []
  }

  /** The output after the first write and the chunk loop: header with 16 zero bytes for the tag, then the body. */
  function Placeholder(iv: Bytes, body: Bytes): Bytes {
    PackHeader(Header(Version, iv, [])) + body
  }

  /** A finished container for the given plaintext. */
  function Container(prim: Primitive, key: Bytes, aad: Bytes, iv: Bytes, plaintext: Bytes): (r: Bytes)
    requires |iv| == 12
    ensures |r| == HeaderSize + |plaintext|
  {
    var (c, t) := Seal(prim, key, iv, aad, plaintext);
    PackHeader(Header(Version, iv, t)) + c
  }

  /** The placeholder holds version 1, the iv and sixteen zero bytes where the tag goes. */
  lemma PlaceholderLayout(iv: Bytes, body: Bytes)
    requires |iv| == 12
    ensures var out := Placeholder(iv, body);
      && |out| == HeaderSize + |body|
      && out[..8] == [1, 0, 0, 0, 0, 0, 0, 0] && out[8..TagOffset] == iv
      && out[TagOffset..HeaderSize] == Zeros(16) && out[HeaderSize..] == body
  {
    var out := Placeholder(iv, body);
    var h := PackHeader(Header(Version, iv, []));
    assert out[..HeaderSize] == h;
    EncodeDecodeLE(h[..8]);
    VersionBytes();
    PackFixedExact(iv);
    assert out[..8] == h[..8] && out[8..TagOffset] == h[8..TagOffset] && out[TagOffset..HeaderSize] == h[TagOffset..];
  }

  /**
   * The final seek-and-write: 16 bytes at offset 20 become the tag, every
   * other byte stays, and the result is the finished container.
   */
  lemma PatchTag(iv: Bytes, body: Bytes, tag: Block)
    requires |iv| == 12
    ensures var before, after := Placeholder(iv, body), Overwrite(Placeholder(iv, body), TagOffset, PackFixed(tag, 16));
      && |after| == |before|
      && (forall i :: 0 <= i < |before| && !(TagOffset <= i < HeaderSize) ==> after[i] == before[i])
      && after[TagOffset..HeaderSize] == tag
      && after == PackHeader(Header(Version, iv, tag)) + body
  {
    var before := Placeholder(iv, body);
    var after := Overwrite(before, TagOffset, PackFixed(tag, 16));
    var sealed := PackHeader(Header(Version, iv, tag)) + body;
    PackFixedExact(tag);
    var h0, h1 := PackHeader(Header(Version, iv, [])), PackHeader(Header(Version, iv, tag));
    assert h0[..TagOffset] == h1[..TagOffset] by {
      assert h0[..8] == EncodeLE(Version, 8) == h1[..8];
      assert h0[..TagOffset] == h0[..8] + h0[8..TagOffset];
      assert h1[..TagOffset] == h1[..8] + h1[8..TagOffset];
    }
    forall i | 0 <= i < |after|
      ensures after[i] == sealed[i]
      ensures !(TagOffset <= i < HeaderSize) ==> after[i] == before[i]
    {
      OverwriteAt(before, TagOffset, PackFixed(tag, 16), i);
      if i < TagOffset {
        assert h0[..TagOffset][i] == h1[..TagOffset][i];
      }
    }
  }

  /** The outcome of `decrypt_file`: whether it returned or raised, and what the output file holds. */
  datatype Outcome = Outcome(result: Result<(), Error>, written: Bytes)

  /** `decrypt_file` as a function of the input file's bytes. */
  function DecryptedFile(prim: Primitive, key: Bytes, aad: Bytes, input: Bytes, chunkSize: int): (o: Outcome)
    ensures o.result.Ok? ==> |input| >= HeaderSize && |o.written| == |Consumed(input[HeaderSize..], chunkSize)|
  {
    var head := if |input| < HeaderSize then input else input[..HeaderSize];
    match UnpackHeader(head)
    case Err(e) => Outcome(Err(e), [])
    case Ok(h) =>
      if h.version != Version then Outcome(Err(VersionMismatch(Version, h.version)), [])
      else
        match ConstructionError(key, h.iv, Some(h.tag))
        case Some(e) => Outcome(Err(e), [])
        case None =>
          if chunkSize < -1 then Outcome(Err(InvalidReadLength), [])
          else
            var c := Consumed(input[HeaderSize..], chunkSize);
            var plain := Ctr(prim, key, h.iv, 0, c);
            Outcome(if h.tag == prim.mac(key, h.iv, aad, c) then Ok(()) else Err(InvalidTag), plain)
  }

  /** Decrypting an encrypted file reproduces the original bytes (the file comparison of the self-test). */
  lemma ContainerRoundTrip(prim: Primitive, key: Bytes, aad: Bytes, iv: Bytes, plaintext: Bytes, chunkSize: int)
    requires ValidKeySize(key) && |iv| == 12 && ReadsAll(chunkSize)
    ensures DecryptedFile(prim, key, aad, Container(prim, key, aad, iv, plaintext), chunkSize)
         == Outcome(Ok(()), plaintext)
  {
    var (c, t) := Seal(prim, key, iv, aad, plaintext);
    var h := Header(Version, iv, t);
    var container := Container(prim, key, aad, iv, plaintext);
    assert container[..HeaderSize] == PackHeader(h) && container[HeaderSize..] == c;
    UnpackPack(h);
    CtrTwice(prim, key, iv, 0, plaintext);
  }

  /** A header whose version is not 1 is refused before anything is written. */
  lemma VersionRejected(prim: Primitive, key: Bytes, aad: Bytes, input: Bytes, chunkSize: int)
    requires |input| >= HeaderSize && DecodeLE(input[..8]) != Version
    ensures DecryptedFile(prim, key, aad, input, chunkSize)
         == Outcome(Err(VersionMismatch(Version, DecodeLE(input[..8]))), [])
  {
    assert input[..HeaderSize][..8] == input[..8];
  }

  /**
   * Plaintext is released before the tag is checked: when the tag does not
   * match, `decrypt_file` raises InvalidTag, yet the output file already
   * holds the whole decrypted body.
   */
  lemma UnauthenticatedRelease(prim: Primitive, key: Bytes, aad: Bytes, input: Bytes, chunkSize: int)
    requires |input| >= HeaderSize && DecodeLE(input[..8]) == Version && ValidKeySize(key) && ReadsAll(chunkSize)
    requires input[TagOffset..HeaderSize] != prim.mac(key, input[8..TagOffset], aad, input[HeaderSize..])
    ensures DecryptedFile(prim, key, aad, input, chunkSize)
         == Outcome(Err(InvalidTag), Ctr(prim, key, input[8..TagOffset], 0, input[HeaderSize..]))
    ensures |DecryptedFile(prim, key, aad, input, chunkSize).written| == |input| - HeaderSize
  {
    var head := input[..HeaderSize];
    assert head[..8] == input[..8] && head[8..TagOffset] == input[8..TagOffset];
    assert head[TagOffset..HeaderSize] == input[TagOffset..HeaderSize];
  }

  /**
   * A chunk size below -1 is refused by the first body read: `decrypt_file`
   * raises ValueError, and the output file, opened for writing, stays empty.
   */
  lemma NegativeChunkRejected(prim: Primitive, key: Bytes, aad: Bytes, input: Bytes, chunkSize: int)
    requires |input| >= HeaderSize && DecodeLE(input[..8]) == Version && ValidKeySize(key) && chunkSize < -1
    ensures DecryptedFile(prim, key, aad, input, chunkSize) == Outcome(Err(InvalidReadLength), [])
  {
    var head := input[..HeaderSize];
    assert head[..8] == input[..8];
  }

  /** An open file: its bytes and the cursor of the handle. */
  class File {
    var content: Bytes
    var pos: nat

    ghost predicate Valid()
      reads this
    {
      pos <= |content|
    }

    constructor (content: Bytes)
      ensures Valid() && this.content == content && pos == 0
    {
      this.content, pos := content, 0;
    }

    /** Opening with mode 'rb': the cursor starts at the beginning. */
    method OpenRead()
      modifies this`pos
      ensures Valid() && pos == 0
    {
      pos := 0;
    }

    /** Opening with mode 'wb': the file is truncated. */
    method OpenWrite()
      modifies this
      ensures Valid() && content == [] && pos == 0
    {
      content, pos := [], 0;
    }

    /**
     * `read(size)` on a binary file: up to size bytes from the cursor, all of
     * the rest for -1, b'' at the end; a size below -1 is a ValueError.
     */
    method Read(size: int) returns (r: Result<Bytes, Error>)
      requires Valid()
      modifies this`pos
      ensures Valid() && old(pos) <= pos
      ensures r.Err? <==> size < -1
      ensures r.Err? ==> r.error == InvalidReadLength && pos == old(pos)
      ensures r.Ok? ==> r.value == content[old(pos)..pos]
      ensures size == -1 ==> pos == |content|
      ensures 0 <= size ==> pos == if old(pos) + size < |content| then old(pos) + size else |content|
    {
      if size < -1 {
        return Err(InvalidReadLength);
      }
      var n := if size == -1 || pos + size > |content| then |content| - pos else size;
      r := Ok(content[pos..pos + n]);
      pos := pos + n;
    }

    /** `write(b)` at the cursor: overwrites what is there, extends the file past its end. */
    method Write(b: Bytes)
      requires Valid()
      modifies this
      ensures Valid()
      ensures content == Overwrite(old(content), old(pos), b) && pos == old(pos) + |b|
      ensures old(pos) == |old(content)| ==> content == old(content) + b
    {
      OverwriteAtEnd(content, b);
      content := Overwrite(content, pos, b);
      pos := pos + |b|;
    }

    /** `seek(offset)` from the start. */
    method Seek(offset: nat)
      requires offset <= |content|
      modifies this`pos
      ensures Valid() && pos == offset
    {
      pos := offset;
    }
  }

  /**
   * One pass of the chunk loop: the chunk goes through the context and what
   * comes out is appended to the output, so that after the pass the output
   * and the context cover moved + chunk as they covered moved before.
   */
  method Transfer(ctx: Context, fout: File, chunk: Bytes,
                  ghost written: Bytes, ghost passed: Bytes, ghost moved: Bytes)
    requires fout.Valid() && fout.pos == |fout.content| && !ctx.finalized
    requires fout.content == written + Ctr(ctx.prim, ctx.key, ctx.iv, |passed|, moved)
    requires ctx.ciphertext == passed + if ctx.expected.None? then Ctr(ctx.prim, ctx.key, ctx.iv, |passed|, moved) else moved
    modifies fout, ctx`ciphertext
    ensures fout.Valid() && fout.pos == |fout.content|
    ensures fout.content == written + Ctr(ctx.prim, ctx.key, ctx.iv, |passed|, moved + chunk)
    ensures ctx.ciphertext == passed + if ctx.expected.None? then Ctr(ctx.prim, ctx.key, ctx.iv, |passed|, moved + chunk) else moved + chunk
  {
    ghost var before := Ctr(ctx.prim, ctx.key, ctx.iv, |passed|, moved);
    var out := ctx.Update(chunk);
    CtrSplit(ctx.prim, ctx.key, ctx.iv, |passed|, moved, chunk);
    AppendAssoc(written, before, out);
    AppendAssoc(passed, before, out);
    AppendAssoc(passed, moved, chunk);
    fout.Write(out);
  }

  /**
   * The chunk loop shared by both directions: read a chunk, pass it through
   * the context, write what comes out, until a read comes back empty. With
   * a chunk size of 0 the first read is already empty and nothing moves.
   */
  method Pump(ctx: Context, fin: File, fout: File, chunkSize: int) returns (r: Result<(), Error>)
    requires fin != fout && fin.Valid() && fout.Valid() && fout.pos == |fout.content| && !ctx.finalized
    modifies fin`pos, fout, ctx`ciphertext
    ensures fin.Valid() && fout.Valid() && fout.pos == |fout.content|
    ensures r.Err? <==> chunkSize < -1
    ensures r.Err? ==> r.error == InvalidReadLength
    ensures old(fin.pos) <= fin.pos && fin.pos == if ReadsAll(chunkSize) then |fin.content| else old(fin.pos)
    ensures var moved := fin.content[old(fin.pos)..fin.pos];
      var out := Ctr(ctx.prim, ctx.key, ctx.iv, |old(ctx.ciphertext)|, moved);
      && fout.content == old(fout.content) + out
      && ctx.ciphertext == old(ctx.ciphertext) + if ctx.expected.None? then out else moved
  {
    ghost var start, written, passed := fin.pos, fout.content, ctx.ciphertext;
    ghost var offset := |passed|;
    var first := fin.Read(chunkSize);
    if first.Err? {
      assert fin.content[start..fin.pos] == [];
      assert written + [] == written && passed + [] == passed;
      return Err(first.error);
    }
    var chunk := first.value;
    ghost var moved: Bytes := [];
    assert [] + chunk == chunk;
    while chunk != []
      invariant fin.Valid() && fout.Valid() && fout.pos == |fout.content| && !ctx.finalized
      invariant start <= fin.pos && fin.content[start..fin.pos] == moved + chunk
      invariant chunkSize == 0 ==> fin.pos == start
      invariant chunk == [] && chunkSize != 0 ==> fin.pos == |fin.content|
      invariant fout.content == written + Ctr(ctx.prim, ctx.key, ctx.iv, offset, moved)
      invariant ctx.ciphertext == passed + if ctx.expected.None? then Ctr(ctx.prim, ctx.key, ctx.iv, offset, moved) else moved
      decreases |fin.content| - fin.pos + |chunk|
    {
      Transfer(ctx, fout, chunk, written, passed, moved);
      moved := moved + chunk;
      ghost var pos := fin.pos;
      var next := fin.Read(chunkSize);
      chunk := next.value;
      SliceConcat(fin.content, start, pos, fin.pos);
    }
    assert moved + [] == moved;
    r := Ok(());
  }

  /**
   * `AESGCMEncrypt.encrypt_file`: header with a zero tag, the body chunk by
   * chunk, then the tag patched in at offset 20. The iv stands for the
   * `os.urandom(12)` draw.
   */
  method EncryptFile(prim: Primitive, key: Bytes, fin: File, fout: File, aad: Bytes, chunkSize: int, iv: Bytes)
    returns (r: Result<(), Error>)
    requires fin != fout && fin.Valid() && fout.Valid() && |iv| == 12
    modifies fin, fout
    ensures fin.content == old(fin.content)
    ensures r.Ok? <==> ValidKeySize(key) && chunkSize >= -1
    ensures !ValidKeySize(key) ==> r == Err(InvalidKeySize) && fout.content == old(fout.content)
    ensures ValidKeySize(key) && chunkSize < -1 ==>
      r == Err(InvalidReadLength) && fout.content == PackHeader(Header(Version, iv, []))
    ensures r.Ok? ==> fout.content == Container(prim, key, aad, iv, Consumed(old(fin.content), chunkSize))
  {
    var err := ConstructionError(key, iv, None);
    if err.Some? {
      return Err(err.value);
    }
    var encryptor := new Context.Encryptor(prim, key, iv);
    encryptor.AuthenticateAdditionalData(aad);
    fin.OpenRead();
    ghost var header := PackHeader(Header(Version, iv, []));
    WritePlaceholder(fout, iv);
    var pumped := Pump(encryptor, fin, fout, chunkSize);
    if pumped.Err? {
      assert fout.content == header + [];
      return Err(pumped.error);
    }
    ghost var plaintext := Consumed(old(fin.content), chunkSize);
    assert fin.content[0..fin.pos] == plaintext;
    ghost var c := Ctr(prim, key, iv, 0, plaintext);
    assert encryptor.ciphertext == [] + c == c;
    assert fout.content == header + c;
    PatchInTag(encryptor, fout);
    assert encryptor.aad == aad;
    r := Ok(());
  }

  /** The start of `encrypt_file`: open the output for writing and write the header with a zero tag. */
  method WritePlaceholder(fout: File, iv: Bytes)
    requires |iv| == 12
    modifies fout
    ensures fout.Valid() && fout.content == PackHeader(Header(Version, iv, [])) && fout.pos == |fout.content|
  {
    fout.OpenWrite();
    fout.Write(PackHeader(Header(Version, iv, [])));
    assert fout.content == [] + PackHeader(Header(Version, iv, []));
  }

  /**
   * The end of `encrypt_file`: finalize, write what it returns (nothing),
   * seek back to the tag slot and write the tag over the zero placeholder.
   */
  method PatchInTag(encryptor: Context, fout: File)
    requires fout.Valid() && fout.pos == |fout.content| && |encryptor.iv| == 12
    requires !encryptor.finalized && encryptor.expected.None?
    requires fout.content == Placeholder(encryptor.iv, encryptor.ciphertext)
    modifies fout, encryptor`finalized, encryptor`tag
    ensures fout.Valid()
    ensures fout.content == PackHeader(Header(Version, encryptor.iv, encryptor.prim.mac(encryptor.key, encryptor.iv, encryptor.aad, encryptor.ciphertext)))
                          + encryptor.ciphertext
  {
    var last := encryptor.Finalize();
    fout.Write(last.value);
    assert fout.content == Placeholder(encryptor.iv, encryptor.ciphertext);
    fout.Seek(TagOffset);
    fout.Write(PackFixed(encryptor.tag.value, 16));
    PatchTag(encryptor.iv, encryptor.ciphertext, encryptor.tag.value);
  }

  /**
   * `AESGCMEncrypt.decrypt_file`: read and check the header, then write each
   * decrypted chunk as it comes; the tag is checked only by the final
   * `finalize`, after the body has been written.
   */
  method DecryptFile(prim: Primitive, key: Bytes, fin: File, fout: File, aad: Bytes, chunkSize: int)
    returns (r: Result<(), Error>)
    requires fin != fout && fin.Valid() && fout.Valid()
    modifies fin, fout
    ensures fin.content == old(fin.content)
    ensures r == DecryptedFile(prim, key, aad, old(fin.content), chunkSize).result
    ensures fout.content == DecryptedFile(prim, key, aad, old(fin.content), chunkSize).written
  {
    fin.OpenRead();
    fout.OpenWrite();
    var read := fin.Read(HeaderSize);
    var raw := read.value;
    assert raw == if |fin.content| < HeaderSize then fin.content else fin.content[..HeaderSize];
    var header := UnpackHeader(raw);
    if header.Err? {
      return Err(header.error);
    }
    var h := header.value;
    if h.version != Version {
      return Err(VersionMismatch(Version, h.version));
    }
    var err := ConstructionError(key, h.iv, Some(h.tag));
    if err.Some? {
      return Err(err.value);
    }
    var decryptor := new Context.Decryptor(prim, key, h.iv, h.tag);
    decryptor.AuthenticateAdditionalData(aad);
    var pumped := Pump(decryptor, fin, fout, chunkSize);
    if pumped.Err? {
      assert fout.content == [] + [];
      return Err(pumped.error);
    }
    ghost var body := Consumed(fin.content[HeaderSize..], chunkSize);
    assert fin.content[HeaderSize..fin.pos] == body;
    assert decryptor.ciphertext == body && decryptor.aad == aad;
    assert fout.content == Ctr(prim, key, h.iv, 0, body);
    var last := decryptor.Finalize();
    if last.Err? {
      return Err(last.error);
    }
    fout.Write(last.value);
    r := Ok(());
  }

  /** `fencrypt`: `encrypt_file` with the instance's key and associated data. */
  method FEncrypt(codec: Encrypt.Codec, fin: File, fout: File, chunkSize: int, iv: Bytes)
    returns (r: Result<(), Error>)
    requires fin != fout && fin.Valid() && fout.Valid() && |iv| == 12
    modifies fin, fout
    ensures fin.content == old(fin.content)
    ensures r.Ok? <==> ValidKeySize(codec.key) && chunkSize >= -1
    ensures !ValidKeySize(codec.key) ==> r == Err(InvalidKeySize) && fout.content == old(fout.content)
    ensures ValidKeySize(codec.key) && chunkSize < -1 ==>
      r == Err(InvalidReadLength) && fout.content == PackHeader(Header(Version, iv, []))
    ensures r.Ok? ==>
      fout.content == Container(codec.prim, codec.key, codec.associatedData, iv, Consumed(old(fin.content), chunkSize))
  {
    r := EncryptFile(codec.prim, codec.key, fin, fout, codec.associatedData, chunkSize, iv);
  }

  /** `fdecrypt`: `decrypt_file` with the instance's key and associated data. */
  method FDecrypt(codec: Encrypt.Codec, fin: File, fout: File, chunkSize: int)
    returns (r: Result<(), Error>)
    requires fin != fout && fin.Valid() && fout.Valid()
    modifies fin, fout
    ensures fin.content == old(fin.content)
    ensures r == DecryptedFile(codec.prim, codec.key, codec.associatedData, old(fin.content), chunkSize).result
    ensures fout.content == DecryptedFile(codec.prim, codec.key, codec.associatedData, old(fin.content), chunkSize).written
  {
    r := DecryptFile(codec.prim, codec.key, fin, fout, codec.associatedData, chunkSize);
  }
}
