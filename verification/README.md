# libpy3 encryption and logging core, modelled in Dafny

This project models three parts of the `libpy3` Python library.

- **The streaming AES-GCM file container** (`aioencrypt.py`, class
  `AESGCMEncrypt`).
  - A file is written as a 36-byte header, then the ciphertext. The header is
    `struct.pack('<Q12s16s', VERSION, iv, tag)`. The body is encrypted chunk
    by chunk.
  - The tag slot is written as 16 zero bytes first. Once the body is finished,
    the tag is patched in at offset 20.
  - Decryption checks the version. It then writes every decrypted chunk
    before the tag is verified.
- **The single-shot cipher class** (`Encrypt.py`, class `encrypt_by_AES_GCM`).
  - The key and the associated data come from the arguments, or else from the
    `[encrypt]` section of a configuration file. The key string is hashed; the
    associated data is only encoded.
  - `encrypt` and `decrypt` work on `(iv, ciphertext, tag)` triples.
  - A text transport joins the three base64 fields with the delimiter
    backslash, backslash, `n`, and splits them apart again.
- **The log-level routing of `Log.py`.**
  - It covers the ordered level list, `get_level` and `LOG_LEVEL_DICT`.
  - It covers the settings read from the `[log]` section.
  - It decides, for each message, which sinks receive it: the queue, the
    emergency stream, the pre-print target and the log file.
  - It builds the caller name that `get_func_name` puts in each line.

The cipher is the `cryptography` library's AES-GCM. Here it is a value
`Gcm.Primitive(keystream, mac)`, passed as a parameter.

- Encryption is counter mode: each data byte is XORed with the keystream byte
  at its position.
- The tag is `mac(key, iv, associated data, ciphertext)`.
- Every result holds for every primitive. The round trips and the length
  results are proved, not assumed.
- The library's rules are modelled by `Gcm.ConstructionError`, checked in
  the library's order:
  - `algorithms.AES` refuses a key that is not 16, 24, 32 or 64 bytes;
  - `modes.GCM` refuses an iv outside 8 to 128 bytes, then a decryption tag
    shorter than 16 bytes;
  - `Cipher` refuses the 64-byte key, which AES allows only for XTS;
  - the backend refuses a decryption tag longer than 16 bytes.
- The stateful cipher object is the class `Gcm.Context`, with
  `authenticate_additional_data`, `update`, `finalize` and `tag`.

Files are the class `AioEncrypt.File`: the file's bytes and a cursor.

- `read(n)` returns up to `n` bytes, or the rest of the file when `n` is -1.
  A binary file opened with 'rb' is a buffered reader, which raises
  ValueError for any size below -1.
- `write` overwrites at the cursor and extends the file.
- `seek` moves the cursor.
- A chunk size of 0 makes the first `read` return `b''`. The loop then stops
  at once, so the container holds an empty body. A chunk size below -1 makes
  the first `read` raise: `encrypt_file` leaves the header with a zero tag,
  and `decrypt_file` leaves an empty output. `AioEncrypt.Consumed` and
  `AioEncrypt.ReadsAll` state which input the loop consumes.

Randomness is a parameter: the 12-byte iv that `os.urandom(12)` would draw.

The source has two oddities the model works around:

- `aioencrypt.py:32` imports `AESGCMEncryptClassic` from `Encrypt`. This version
  of `Encrypt.py` defines no such name; its class is `encrypt_by_AES_GCM`.
  The model takes the base class to be that class (`Encrypt.Codec`).
  `fencrypt` and `fdecrypt` only use its `key` and `associated_data` fields.
- In `Log.py`, `need_put_queue` is accepted by `log` and never read, so
  `Log.Route` has no such parameter.

Files:

- `wrappers.dfy`: Option, Result and the error kinds.
- `bytes.dfy`: bytes, XOR, struct packing, little-endian integers and
  file overwrite.
- `utf8.dfy`: `str.encode()` and `bytes.decode()`.
- `base64.dfy`: `b64encode` and `b64decode`.
- `strings.dfy`: `str.join` and `str.split`.
- `gcm.dfy`: the cipher.
- `encrypt.dfy`: `Encrypt.py`.
- `aioencrypt.dfy`: `aioencrypt.py`.
- `log.dfy`: `Log.py`.

## Model

| member | source | states |
|---|---|---|
| Gcm.ConstructionError | Encrypt.py:48-52 | no error exactly when the key is 16, 24 or 32 bytes, the iv is 8 to 128 bytes and any given tag is 16 bytes; the iv error is reported exactly when AES accepts the key (16, 24, 32 or 64 bytes) and the iv is out of range, so a 64-byte key with a bad iv gives the iv error; a key AES refuses is always the key-size error; with an accepted key and iv a tag shorter than 16 bytes is the tag error; only these three errors occur |
| Gcm.Ctr | Encrypt.py:59-60 | GCM does no padding: the output is exactly as long as the input |
| Gcm.CtrTwice | Encrypt.py:78-80 | applying the same keystream twice gives the data back, so decryption undoes encryption |
| Gcm.CtrSplit | aioencrypt.py:62-63 | feeding data to `update` in two pieces gives the concatenation of what it gives for each piece, which is the output for the whole |
| Gcm.OpenSeal | Encrypt.py:78-80 | opening a sealed message with the same key, iv and associated data succeeds and returns the plaintext |
| Gcm.Context.Encryptor | Encrypt.py:48-52 | a fresh encryptor has no associated data, no ciphertext and no tag yet |
| Gcm.Context.Decryptor | Encrypt.py:68-72 | a fresh decryptor holds the expected tag and has seen nothing yet |
| Gcm.Context.AuthenticateAdditionalData | Encrypt.py:56 | the associated data is appended to what the tag covers |
| Gcm.Context.Update | aioencrypt.py:63 | returns the data XORed with the keystream from the current position; the ciphertext seen so far grows by the output (encryptor) or the input (decryptor) |
| Gcm.Context.Finalize | Encrypt.py:79-80 | returns no bytes; an encryptor's tag becomes the mac over associated data and ciphertext; a decryptor fails with InvalidTag unless the expected tag equals that mac |
| Encrypt.New | Encrypt.py:32-40 | IOError when an argument is missing and the configuration is unreadable or lacks `[encrypt]`; succeeds when both are given, or when a usable configuration supplies each missing one; explicit arguments take precedence; key = hash(UTF-8 of the key string); associated data = UTF-8 of its string, not hashed; a missing 'key' is the KeyError whenever it is missing, and 'associated_data' is reported exactly when the key was found (given or configured) and it is neither given nor configured |
| Encrypt.SealTriple | Encrypt.py:42-62 | succeeds exactly for a valid key size; the result carries the given iv, a ciphertext as long as the plaintext and a 16-byte tag equal to the mac of the ciphertext |
| Encrypt.OpenTriple | Encrypt.py:65-80 | succeeds exactly when construction succeeds and the tag equals the mac; the plaintext is as long as the ciphertext; otherwise InvalidTag or the construction error |
| Encrypt.EncryptBytes | Encrypt.py:42-62 | driving the cipher object (aad, update, finalize, tag) yields exactly `SealTriple` |
| Encrypt.DecryptBytes | Encrypt.py:65-80 | driving the decryptor yields exactly `OpenTriple`: no plaintext is returned when finalize rejects the tag |
| Encrypt.SealOpen | Encrypt.py:85-98 | with a valid key, `decrypt` of what `encrypt` returns is the original plaintext |
| Encrypt.Codec.Encrypt | Encrypt.py:85-89 | `encrypt` is `_encrypt` with the instance's key and associated data |
| Encrypt.Codec.Encrypts | Encrypt.py:82-83 | `encrypts` encrypts the UTF-8 encoding of the string |
| Encrypt.Codec.B64Encrypt | Encrypt.py:91-92 | fails exactly when `encrypt` fails, with its error; otherwise the text is the base64 encodings of iv, ciphertext and tag joined by the delimiter, and splitting and decoding it gives back exactly the triple `encrypt` returned |
| Encrypt.Codec.B64Encrypts | Encrypt.py:94-95 | the same, for the UTF-8 encoding of the string |
| Encrypt.Codec.Decrypt | Encrypt.py:97-98 | `decrypt` is `_decrypt` with the instance's key and associated data |
| Encrypt.Codec.Decrypts | Encrypt.py:100-101 | the decrypted bytes decoded as UTF-8; a decryption error passes through; bytes that are not UTF-8 give UnicodeDecodeError |
| Encrypt.Codec.B64Decrypt | Encrypt.py:103-104 | a transport error (bad base64, wrong field count) is returned as is; otherwise the three decoded fields are decrypted |
| Encrypt.Codec.B64Decrypts | Encrypt.py:106-107 | `b64decrypt` followed by UTF-8 decoding, with the same error cases |
| Encrypt.DecodeAll | Encrypt.py:104 | succeeds exactly when every part is base64, and then returns each part's decoding in order |
| Encrypt.B64Split | Encrypt.py:103-104 | succeeds exactly when the text splits into 3 parts that all decode; a bad part is a base64 error, any other count a wrong argument count for `decrypt` |
| Encrypt.NoBackslash | Encrypt.py:92 | base64 output never contains a backslash, so the delimiter cannot occur inside a field |
| Encrypt.SplitFields | Encrypt.py:92 | splitting the joined text on the delimiter gives back the three encoded fields |
| Encrypt.DecodeFields | Encrypt.py:104 | decoding the three fields gives back iv, ciphertext and tag |
| Encrypt.TransportRoundTrip | Encrypt.py:91-104 | `b64decrypt`'s parsing of `b64encrypt`'s text is exactly the original triple |
| PyStrings.Find | Encrypt.py:104 | the first occurrence of the separator, or none at all |
| PyStrings.Split | Encrypt.py:104 | `str.split(sep)` always yields at least one part |
| PyStrings.SplitJoin | Encrypt.py:92-104 | splitting a join on a separator whose first character occurs in no part gives back the parts |
| Base64.CharIndex | Encrypt.py:104 | an alphabet character's value is below 64 and maps back to the same character |
| Base64.Encode | Encrypt.py:92 | the output length is 4 * ceil(n / 3) |
| Base64.EncodeAlphabet | Encrypt.py:92 | the output holds only alphabet characters and '=' |
| Base64.DecodeEncode | Encrypt.py:92-104 | decoding the encoding of any bytes gives those bytes |
| Utf8.Encode | Encrypt.py:82-83 | `str.encode()` takes 1 to 4 bytes per character |
| Utf8.DecodeFirst | Encrypt.py:100-101 | a successfully decoded character takes 1 to 4 bytes, all within the input (the definition refuses overlong forms, surrogates and values above U+10FFFF) |
| Utf8.Decode | Encrypt.py:100-101 | a successful strict decoding yields at most one character per byte |
| Utf8.DecodeEncode | Encrypt.py:111 | decoding the UTF-8 encoding of any string gives the string back |
| ByteSeqs.XorTwice | aioencrypt.py:83 | XORing a byte twice with the same key byte gives it back |
| ByteSeqs.PackFixed | aioencrypt.py:61 | struct's `Ns`: exactly n bytes, the input followed by zero bytes, cut at n |
| ByteSeqs.EncodeLE | aioencrypt.py:61 | struct's `<Q`: n little-endian bytes |
| ByteSeqs.DecodeLE | aioencrypt.py:72 | the value of little-endian bytes is below 256 to the power of their number |
| ByteSeqs.DecodeEncodeLE | aioencrypt.py:72 | unpacking a packed integer gives the integer |
| ByteSeqs.EncodeDecodeLE | aioencrypt.py:72 | packing an unpacked integer gives the bytes |
| ByteSeqs.Overwrite | aioencrypt.py:65-66 | a write at a cursor: the file grows to cover the write, and the written range holds the data |
| ByteSeqs.OverwriteAt | aioencrypt.py:66 | byte by byte: the written range is replaced, a gap is zeros, every other byte is kept |
| ByteSeqs.OverwriteAtEnd | aioencrypt.py:63 | writing at the end of a file appends |
| AioEncrypt.PackHeader | aioencrypt.py:61 | the header is 36 bytes: the version in 8 little-endian bytes, then the iv slot of 12 bytes, then the tag slot of 16 bytes |
| AioEncrypt.UnpackHeader | aioencrypt.py:72 | struct.error unless exactly 36 bytes; otherwise version, iv and tag are the three slots |
| AioEncrypt.UnpackPack | aioencrypt.py:61-72 | unpacking a packed header returns the same version, iv and tag |
| AioEncrypt.PackUnpack | aioencrypt.py:72 | packing an unpacked header returns the same 36 bytes |
| AioEncrypt.VersionBytes | aioencrypt.py:36 | VERSION = 1 is written as the bytes 1, 0, 0, 0, 0, 0, 0, 0 |
| AioEncrypt.Container | aioencrypt.py:43-66 | a container is 36 bytes longer than its plaintext |
| AioEncrypt.PlaceholderLayout | aioencrypt.py:61 | the first write holds version 1, the iv and 16 zero bytes where the tag goes, followed by the body |
| AioEncrypt.PatchTag | aioencrypt.py:65-66 | the seek to offset 20 and 16-byte write change exactly bytes 20 to 35, which become the tag, and produce the finished container |
| AioEncrypt.DecryptedFile | aioencrypt.py:69-84 | when decryption returns normally, the output is as long as the consumed body |
| AioEncrypt.ContainerRoundTrip | aioencrypt.py:109-115 | with the same key and associated data, and a chunk size that is positive or -1, decrypting an encrypted file returns normally and reproduces the original bytes |
| AioEncrypt.VersionRejected | aioencrypt.py:73-74 | a version other than 1 raises VersionException and nothing is written |
| AioEncrypt.UnauthenticatedRelease | aioencrypt.py:82-84 | with a chunk size that is positive or -1, a tag mismatch makes decryption raise InvalidTag, yet the output already holds the whole decrypted body |
| AioEncrypt.NegativeChunkRejected | aioencrypt.py:71-82 | with a valid header and key, a chunk size below -1 makes the first body read raise ValueError, and the output stays empty |
| AioEncrypt.File.OpenRead | aioencrypt.py:60 | opening with 'rb' puts the cursor at the start |
| AioEncrypt.File.OpenWrite | aioencrypt.py:60 | opening with 'wb' truncates |
| AioEncrypt.File.Read | aioencrypt.py:62 | ValueError exactly for a size below -1, with the cursor unmoved; otherwise the bytes from the cursor up to the requested count, all of them for -1, and b'' at the end; the cursor moves past them |
| AioEncrypt.File.Write | aioencrypt.py:63 | the file becomes the overwrite at the cursor, which is an append at the end; the cursor moves past the data |
| AioEncrypt.File.Seek | aioencrypt.py:65 | the cursor moves to the offset |
| AioEncrypt.Transfer | aioencrypt.py:63 | one chunk through `update` and `write` extends the output and the context as if `moved + chunk` had been fed at once |
| AioEncrypt.Pump | aioencrypt.py:62-63 | raises exactly for a chunk size below -1, having moved nothing; otherwise the loop reads to the end of the input (not at all for chunk size 0) and appends the counter-mode image of what it read, in order |
| AioEncrypt.WritePlaceholder | aioencrypt.py:60-61 | the output is truncated and then holds the header with a zero tag |
| AioEncrypt.PatchInTag | aioencrypt.py:64-66 | after finalize, the output is the header carrying the mac of the ciphertext, followed by the ciphertext |
| AioEncrypt.EncryptFile | aioencrypt.py:43-66 | returns normally exactly for a valid key and a chunk size of at least -1, and then the output is exactly the container of the consumed input; an invalid key raises before the output is touched; a chunk size below -1 raises ValueError after the header with a zero tag was written; the input is never changed |
| AioEncrypt.DecryptFile | aioencrypt.py:69-84 | the result and the output file are exactly `DecryptedFile` of the input: struct.error, VersionException, construction errors and a chunk size below -1 leave an empty output; a bad tag leaves the decrypted body |
| AioEncrypt.FEncrypt | aioencrypt.py:86-87 | `encrypt_file` with the instance's key and associated data, with the same outcomes |
| AioEncrypt.FDecrypt | aioencrypt.py:89-90 | `decrypt_file` with the instance's key and associated data |
| Log.IndexOf | Log.py:53 | `list.index` returns the first position that holds the element |
| Log.LevelsDistinct | Log.py:47 | the eleven level names are pairwise different |
| Log.IndexOfLevel | Log.py:47 | `LOG_LEVEL_LIST.index(LOG_LEVEL_LIST[i]) == i` |
| Log.GetLevel | Log.py:98-99 | a known name gives its index; any other string gives 10, the index of 'ALL' |
| Log.GetLevelOfName | Log.py:98-99 | `get_level` inverts list indexing |
| Log.LevelDict | Log.py:78 | the dictionary's keys are the level names, and each maps to its position |
| Log.LevelDictAgrees | Log.py:78 | the dictionary agrees with `get_level` on known names, and its 'ALL' entry is `get_level` of unknown names |
| Log.PastOff | Log.py:105 | a name is in `LOG_LEVEL_LIST[1:]` exactly when it is a level other than OFF |
| Log.QueuedIndices | Log.py:105 | a message is queued exactly when its level is known with index 1 to 3 |
| Log.QueuedLevels | Log.py:105-107 | only EMERG, CRIT and FATAL are put on the queue |
| Log.QueueRuleByDict | Log.py:106 | the commented-out dictionary form of the queue test is equivalent to the one in use |
| Log.InitEmergPrint | Log.py:49-57 | disabled unless `emerg_print` names a level past OFF; then the threshold is that level's index (1 to 10) and the stream is stderr or stdout as `emerg_print_to` names it, or AssertionError when `emerg_print_to` is missing or not stderr/stdout |
| Log.EchoMonotone | Log.py:111 | a message echoed at one level would also be echoed at any more severe level |
| Log.EchoBounds | Log.py:111-113 | with emergency printing on, EMERG is always echoed; with threshold ALL, every message is |
| Log.GetTarget | Log.py:61-65 | 'stderr' is exactly the stderr stream, 'stdout' exactly stdout, 'None' exactly no target, and any other string is a file of that name opened for appending |
| Log.InitLog | Log.py:59-70 | emergency settings first (their AssertionError wins), then KeyError for a missing `[log]` section or, in this order, a missing `log_level`, `log_file` or `pre_print`; succeeds exactly otherwise, with the configured values |
| Log.QueueOption | Log.py:69-80 | once `init_log` succeeded, `use_queue` = 'false' keeps every message off the queue, and any other value or none queues exactly EMERG, CRIT and FATAL |
| Log.RouteToFile | Log.py:117-120 | written exactly when a known level's index is at most the configured index, or an unknown level meets configured ALL; a known level with an unknown configured level raises ValueError, which the bare except swallows |
| Log.FileMonotone | Log.py:117-118 | a more verbose configured level never drops a message that a less verbose one writes |
| Log.FileAll | Log.py:117-118 | configured ALL, every message reaches the file |
| Log.FileOff | Log.py:117 | configured OFF, only messages logged at OFF reach the file |
| Log.Route | Log.py:101-120 | queued iff the queue is in use and the level is EMERG, CRIT or FATAL; echoed iff emergency printing is on and its threshold is at least `get_level`; pre-printed iff asked and there is a target; the file as `RouteToFile` decides |
| Log.UnknownLevel | Log.py:105-113 | an unknown level name is never queued, and is echoed only when the threshold is ALL |
| Log.Replace | Log.py:85 | `str.replace` of one character: same length, every occurrence replaced, every other character kept |
| Log.Dotted | Log.py:85 | the two `replace` passes: both path separators become dots, nothing else changes, and no separator is left |
| Log.ModulePart | Log.py:85 | `path[cwdlen:-3]` with Python's slice clamping: empty for a short path, the middle otherwise |
| Log.FuncName | Log.py:85-89 | the dotted module part, function name and line, with one leading dot removed |
| Log.CallerUnderCwd | Log.py:42-89 | a caller in `cwd/relative.py` is named by the dotted relative path |
| Log.CallerOutsideSlice | Log.py:89 | when the slice is empty, the leading dot is stripped and only the function and line remain |

## Left out

- AES and GHASH themselves are not modelled. The cipher is a parameter: a keystream function and a mac function. So the model does not capture that a forged tag is hard to find. It does not capture GCM's iv hashing for ivs other than 12 bytes.
- `os.urandom(12)` is not modelled; the iv is a parameter of the encrypting operations.
- `aiofiles` and `async`/`await` are not modelled; the file operations run in sequence on in-memory files.
  - Errors from opening files (missing input, permissions) are not modelled.
  - The same path used as both input and output is not modelled: the operations require two distinct files.
- AioEncrypt.File.Seek: requires an offset within the file. Python also allows seeking past the end, but the only seek in the source is to offset 20 in a file of at least 36 bytes.
- AioEncrypt.PackHeader: requires a version below 2^64, so the struct.error for a larger version is not modelled. VERSION is 1.
- Gcm.ConstructionError: treats every decryption tag length other than 16 bytes as an error when the cipher is constructed. The library's exact exception for an over-long tag is not modelled.
- Gcm.Context.Update: never fails. The library refuses more than 2^36 - 32 bytes of data in one context, and associated data beyond 2^61 - 1 bytes.
- AioEncrypt.EncryptFile: promises a container for every input length with a valid key. For an input beyond GCM's 2^36 - 32 byte limit, the library raises instead.
- AioEncrypt.DecryptFile: the same limit applies to the body it decrypts, and is not modelled.
- The default chunk size `CHUNK_SIZE` (8192) is not modelled: the chunk size is always a parameter.
- Base64.Decode: is strict where Python's non-validating `b64decode` is lenient, so `b64decrypt` of a hand-made string can fail in the model where Python decodes it. Python silently discards characters outside the alphabet. It also skips a '=' in the first two positions of a group, and stops at the first complete padding: `b64decode("AA==AAAA")` is one zero byte, where the model gives Base64Error. Canonical text, which is what `b64encrypt` produces, decodes the same way in both (`Base64.DecodeEncode`).
- Utf8.Encode: lone surrogates, which `str.encode()` rejects, are not modelled, because Dafny characters are Unicode scalar values.
- ConfigParser file reading is not modelled. Configurations are maps from section to option to value.
  - Parse errors are not modelled.
  - Option-name case folding, interpolation and the DEFAULT section are not modelled.
  - For `Encrypt.py`, an unreadable file is `None`.
  - For `Log.py`, a missing file reads as an empty map, as `ConfigParser.read` ignores it.
- The `hash_func` of `Encrypt.py` is a parameter; sha256 itself is not modelled.
- Exception messages (for example the text of VersionException) are not modelled; the errors carry only their kind and numbers.
- The `encrypt_by_AES_GCM` instance is a value; Python code reassigning its fields after construction is not modelled.
- The I/O parts of `Log.py` are not modelled:
  - the lock, `time.strftime` and the message text format;
  - the `inspect` stack walk; the caller's file, function and line are parameters;
  - opening the log and pre-print files; `reopen`;
  - stream writes and flushes, and errors raised by them;
  - the traceback printing.
- The level wrappers `emerg`, `fatal`, `crit`, `error`, `alert`, `warn`, `notify`, `info`, `custom` and `exc` are not modelled separately. Each is `log` at a fixed or given level, which `Log.Route` covers.
- Log.InitEmergPrint: keeps the `assert` of `Log.py:52` as an error. Under `python -O` it would be skipped.
- The self-tests (`test_random_file`, `test_specify_file` and the `__main__` blocks) are not modelled. `AioEncrypt.ContainerRoundTrip` and `Utf8.DecodeEncode` state the property they check.
- `Daemon.py` and the database wrappers are not part of this model.
