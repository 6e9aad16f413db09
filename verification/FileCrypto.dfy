/**
 * The byte formats of sealed files: SKF1 and SKP1 headers, chunk record headers, chunk
 * nonces and chunk AAD, with the key derivation that a header selects.
 */
module FileCrypto {
  import opened ByteStrings
  import opened Gcm

  const CHUNK_SIZE: u32 := 0x10_0000
  const SALT_SIZE: nat := 32
  const NONCE_PREFIX_SIZE: nat := 8
  const RECORD_HEADER_SIZE: nat := 9
  const VERSION: byte := 1
  const ALGORITHM: byte := 1
  const CIPHER_AES256_GCM: byte := 1
  const KDF_SCRYPT: byte := 1
  const FLAGS_NONE: byte := 0
  const NOT_FINAL: byte := 0
  const FINAL: byte := 1
  const SCRYPT_N: u32 := 32768
  const SCRYPT_R: u32 := 8
  const SCRYPT_P: u32 := 1
  const SCRYPT_MAX_MEMORY: nat := 64 * 1024 * 1024

  /** "SKF1" and "SKP1". */
  const MAGIC: Bytes := [0x53, 0x4B, 0x46, 0x31]
  const PASSWORD_MAGIC: Bytes := [0x53, 0x4B, 0x50, 0x31]

  /** The context label "anosecurekit file sealing v1". */
  const INFO: Bytes := [
    0x61, 0x6E, 0x6F, 0x73, 0x65, 0x63, 0x75, 0x72, 0x65, 0x6B, 0x69, 0x74, 0x20,
    0x66, 0x69, 0x6C, 0x65, 0x20, 0x73, 0x65, 0x61, 0x6C, 0x69, 0x6E, 0x67, 0x20, 0x76, 0x31]

  type Salt = s: Bytes | |s| == SALT_SIZE witness seq(SALT_SIZE, i => 0)
  type NoncePrefix = p: Bytes | |p| == NONCE_PREFIX_SIZE witness seq(NONCE_PREFIX_SIZE, i => 0)

  datatype Format = Skf1 | Skp1
  datatype FileHeader = FileHeader(serialized: Bytes, salt: Salt, noncePrefix: NoncePrefix)
  datatype RecordHeader = RecordHeader(index: u32, size: u32, final: bool)

  function HeaderSize(f: Format): nat {
    match f case Skf1 => 50 case Skp1 => 64
  }

  // ---------------------------------------------------------------- headers

  /** The header layout of each format. */
  function HeaderBytes(f: Format, salt: Salt, noncePrefix: NoncePrefix): (r: Bytes)
    ensures |r| == HeaderSize(f)
  {
    match f
    case Skf1 =>
      MAGIC + [VERSION, ALGORITHM] + U32Be(CHUNK_SIZE) + salt + noncePrefix
    case Skp1 =>
      PASSWORD_MAGIC + [VERSION, CIPHER_AES256_GCM, KDF_SCRYPT, FLAGS_NONE] + U32Be(CHUNK_SIZE) + salt + noncePrefix
      + U32Be(SCRYPT_N) + U32Be(SCRYPT_R) + U32Be(SCRYPT_P)
  }

  lemma {:induction false} ConstantBytes()
    ensures U32Be(CHUNK_SIZE) == [0x00, 0x10, 0x00, 0x00]
    ensures U32Be(SCRYPT_N) + U32Be(SCRYPT_R) + U32Be(SCRYPT_P)
            == [0x00, 0x00, 0x80, 0x00, 0x00, 0x00, 0x00, 0x08, 0x00, 0x00, 0x00, 0x01]
  {
  }

  /** Where the fields of the two headers stand, byte for byte. */
  lemma {:induction false} HeaderLayout(f: Format, s: Salt, p: NoncePrefix)
    ensures var h := HeaderBytes(f, s, p);
            match f
            case Skf1 =>
              h[..10] == [0x53, 0x4B, 0x46, 0x31, 1, 1, 0x00, 0x10, 0x00, 0x00] && h[10..42] == s && h[42..50] == p
            case Skp1 =>
              && h[..12] == [0x53, 0x4B, 0x50, 0x31, 1, 1, 1, 0, 0x00, 0x10, 0x00, 0x00]
              && h[12..44] == s && h[44..52] == p
              && h[52..64] == [0x00, 0x00, 0x80, 0x00, 0x00, 0x00, 0x00, 0x08, 0x00, 0x00, 0x00, 0x01]
  {
    hide U32Be;
    ConstantBytes();
    if f == Skp1 {
      assert HeaderBytes(f, s, p)[52..64] == U32Be(SCRYPT_N) + U32Be(SCRYPT_R) + U32Be(SCRYPT_P);
    }
  }

  /** Fills an SKF1 header field by field; `salt` and `noncePrefix` are the random bytes drawn. */
  method MakeHeader(salt: Salt, noncePrefix: NoncePrefix) returns (header: FileHeader)
    ensures header == FileHeader(HeaderBytes(Skf1, salt, noncePrefix), salt, noncePrefix)
  {
    var serialized := new byte[HeaderSize(Skf1)];
    CopyInto(MAGIC, serialized, 0);
    serialized[4] := VERSION;
    serialized[5] := ALGORITHM;
    assert serialized[..6] == MAGIC + [VERSION, ALGORITHM];
    StoreU32Be(serialized, 6, CHUNK_SIZE);
    CopyInto(salt, serialized, 10);
    CopyInto(noncePrefix, serialized, 42);
    header := FileHeader(serialized[..], salt, noncePrefix);
  }

  method MakePasswordHeader(salt: Salt, noncePrefix: NoncePrefix) returns (header: FileHeader)
    ensures header == FileHeader(HeaderBytes(Skp1, salt, noncePrefix), salt, noncePrefix)
  {
    var serialized := new byte[HeaderSize(Skp1)];
    CopyInto(PASSWORD_MAGIC, serialized, 0);
    serialized[4] := VERSION;
    serialized[5] := CIPHER_AES256_GCM;
    serialized[6] := KDF_SCRYPT;
    serialized[7] := FLAGS_NONE;
    ghost var head := PASSWORD_MAGIC + [VERSION, CIPHER_AES256_GCM, KDF_SCRYPT, FLAGS_NONE];
    assert serialized[..8] == head;
    StoreU32Be(serialized, 8, CHUNK_SIZE);
    assert serialized[..12] == head + U32Be(CHUNK_SIZE);
    CopyInto(salt, serialized, 12);
    CopyInto(noncePrefix, serialized, 44);
    assert serialized[..52] == head + U32Be(CHUNK_SIZE) + salt + noncePrefix;
    StoreU32Be(serialized, 52, SCRYPT_N);
    StoreU32Be(serialized, 56, SCRYPT_R);
    StoreU32Be(serialized, 60, SCRYPT_P);
    header := FileHeader(serialized[..], salt, noncePrefix);
  }

  function ParseHeader(data: Bytes): Result<FileHeader>
    requires |data| == HeaderSize(Skf1)
  {
    if data[..4] != MAGIC || data[4] != VERSION || data[5] != ALGORITHM then Err(InvalidPacket)
    else if ReadU32Be(data[6..10]) != CHUNK_SIZE then Err(InvalidPacket)
    else Ok(FileHeader(data, data[10..42], data[42..]))
  }

  function ParsePasswordHeader(data: Bytes): Result<FileHeader>
    requires |data| == HeaderSize(Skp1)
  {
    if data[..4] != PASSWORD_MAGIC || data[4] != VERSION || data[5] != CIPHER_AES256_GCM
       || data[6] != KDF_SCRYPT || data[7] != FLAGS_NONE then Err(InvalidPacket)
    else if ReadU32Be(data[8..12]) != CHUNK_SIZE then Err(InvalidPacket)
    else if ReadU32Be(data[52..56]) != SCRYPT_N || ReadU32Be(data[56..60]) != SCRYPT_R
            || ReadU32Be(data[60..64]) != SCRYPT_P then Err(InvalidPacket)
    else Ok(FileHeader(data, data[12..44], data[44..52]))
  }

  function ParseHeaderOf(f: Format, data: Bytes): Result<FileHeader>
    requires |data| == HeaderSize(f)
  {
    match f case Skf1 => ParseHeader(data) case Skp1 => ParsePasswordHeader(data)
  }

  /** The parser of a format accepts exactly the byte strings its maker can produce, and recovers the fields. */
  lemma {:induction false} HeaderCodecExact(f: Format, data: Bytes, h: FileHeader)
    requires |data| == HeaderSize(f)
    ensures ParseHeaderOf(f, data) == Ok(h)
            <==> h == FileHeader(HeaderBytes(f, h.salt, h.noncePrefix), h.salt, h.noncePrefix) && h.serialized == data
    ensures ParseHeaderOf(f, data).Err? ==> ParseHeaderOf(f, data) == Err(InvalidPacket)
  {
    match f
    case Skf1 => HeaderCodecExactSkf1(data, h);
    case Skp1 => HeaderCodecExactSkp1(data, h);
  }

  lemma {:induction false} HeaderCodecExactSkf1(data: Bytes, h: FileHeader)
    requires |data| == HeaderSize(Skf1)
    ensures ParseHeader(data) == Ok(h)
            <==> && h == FileHeader(HeaderBytes(Skf1, h.salt, h.noncePrefix), h.salt, h.noncePrefix)
                 && h.serialized == data
  {
    hide U32Be, ReadU32Be;
    U32RoundTrip(CHUNK_SIZE, data[6..10]);
    if data == HeaderBytes(Skf1, h.salt, h.noncePrefix) {
      assert data[6..10] == U32Be(CHUNK_SIZE);
      assert data[10..42] == h.salt && data[42..] == h.noncePrefix;
    }
    if ParseHeader(data) == Ok(h) {
      assert data == data[..4] + [data[4], data[5]] + data[6..10] + data[10..42] + data[42..];
    }
  }

  lemma {:induction false} HeaderCodecExactSkp1(data: Bytes, h: FileHeader)
    requires |data| == HeaderSize(Skp1)
    ensures ParsePasswordHeader(data) == Ok(h)
            <==> && h == FileHeader(HeaderBytes(Skp1, h.salt, h.noncePrefix), h.salt, h.noncePrefix)
                 && h.serialized == data
  {
    hide U32Be, ReadU32Be;
    U32RoundTrip(CHUNK_SIZE, data[8..12]);
    U32RoundTrip(SCRYPT_N, data[52..56]);
    U32RoundTrip(SCRYPT_R, data[56..60]);
    U32RoundTrip(SCRYPT_P, data[60..64]);
    if data == HeaderBytes(Skp1, h.salt, h.noncePrefix) {
      assert data[8..12] == U32Be(CHUNK_SIZE);
      assert data[12..44] == h.salt && data[44..52] == h.noncePrefix;
      assert data[52..56] == U32Be(SCRYPT_N) && data[56..60] == U32Be(SCRYPT_R) && data[60..64] == U32Be(SCRYPT_P);
    }
    if ParsePasswordHeader(data) == Ok(h) {
      assert data[..8] == data[..4] + [data[4], data[5], data[6], data[7]];
      assert data[52..] == data[52..56] + data[56..60] + data[60..64];
      assert data == data[..8] + data[8..12] + data[12..44] + data[44..52] + data[52..];
      assert data == data[..4] + [data[4], data[5], data[6], data[7]] + data[8..12] + data[12..44] + data[44..52]
                     + data[52..56] + data[56..60] + data[60..64];
    }
  }

  // ---------------------------------------------------------------- records

  function RecordBytes(r: RecordHeader): (b: Bytes)
    ensures |b| == RECORD_HEADER_SIZE
  {
    U32Be(r.index) + U32Be(r.size) + [if r.final then FINAL else NOT_FINAL]
  }

  method MakeRecordHeader(r: RecordHeader) returns (serialized: array<byte>)
    ensures fresh(serialized) && serialized[..] == RecordBytes(r)
  {
    serialized := new byte[RECORD_HEADER_SIZE];
    StoreU32Be(serialized, 0, r.index);
    StoreU32Be(serialized, 4, r.size);
    serialized[8] := if r.final then FINAL else NOT_FINAL;
  }

  function ParseRecordHeader(data: Bytes): Result<RecordHeader>
    requires |data| == RECORD_HEADER_SIZE
  {
    var index := ReadU32Be(data[..4]);
    var size := ReadU32Be(data[4..8]);
    if data[8] != NOT_FINAL && data[8] != FINAL then Err(InvalidPacket)
    else if size > CHUNK_SIZE then Err(InvalidPacket)
    else Ok(RecordHeader(index, size, data[8] == FINAL))
  }

  /** Nine bytes parse as `r` exactly when they are the bytes of `r` and its size fits a chunk. */
  lemma {:induction false} RecordCodecExact(data: Bytes, r: RecordHeader)
    requires |data| == RECORD_HEADER_SIZE
    ensures ParseRecordHeader(data) == Ok(r) <==> data == RecordBytes(r) && r.size <= CHUNK_SIZE
    ensures ParseRecordHeader(data).Err? ==> ParseRecordHeader(data) == Err(InvalidPacket)
  {
    U32RoundTrip(r.index, data[..4]);
    U32RoundTrip(r.size, data[4..8]);
    if data == RecordBytes(r) {
      assert data[..4] == U32Be(r.index) && data[4..8] == U32Be(r.size);
    }
    assert data == data[..4] + data[4..8] + [data[8]];
  }

  lemma {:induction false} RecordBytesInjective(r: RecordHeader, q: RecordHeader)
    requires RecordBytes(r) == RecordBytes(q)
    ensures r == q
  {
    assert U32Be(r.index) == RecordBytes(r)[..4] == U32Be(q.index);
    assert U32Be(r.size) == RecordBytes(r)[4..8] == U32Be(q.size);
    assert RecordBytes(r)[8] == RecordBytes(q)[8];
    U32BeInjective(r.index, q.index);
    U32BeInjective(r.size, q.size);
  }

  // ---------------------------------------------------------------- nonces and AAD

  function ChunkNonce(noncePrefix: NoncePrefix, index: u32): (r: Bytes)
    ensures |r| == 12
  {
    noncePrefix + U32Be(index)
  }

  method MakeNonce(noncePrefix: NoncePrefix, index: u32) returns (nonce: array<byte>)
    ensures fresh(nonce) && nonce[..] == ChunkNonce(noncePrefix, index)
  {
    nonce := new byte[12];
    CopyInto(noncePrefix, nonce, 0);
    StoreU32Be(nonce, NONCE_PREFIX_SIZE, index);
  }

  lemma {:induction false} ChunkNonceInjective(p: NoncePrefix, i: u32, q: NoncePrefix, j: u32)
    requires ChunkNonce(p, i) == ChunkNonce(q, j)
    ensures p == q && i == j
  {
    assert p == ChunkNonce(p, i)[..8] == q;
    assert U32Be(i) == ChunkNonce(p, i)[8..] == U32Be(j);
    U32BeInjective(i, j);
  }

  function ChunkAad(header: Bytes, r: RecordHeader, callerAad: Bytes): Bytes {
    header + RecordBytes(r) + callerAad
  }

  method MakeChunkAad(header: Bytes, record: Bytes, callerAad: Bytes) returns (aad: Bytes)
    ensures aad == header + record + callerAad
  {
    aad := [];
    aad := aad + header;
    aad := aad + record;
    aad := aad + callerAad;
  }

  /**
   * Equal chunk AADs determine the format, the header, the record and the caller's AAD,
   * although the two formats have headers of different lengths and nothing is length-prefixed.
   */
  lemma {:induction false} ChunkAadInjective(
      f: Format, s: Salt, p: NoncePrefix, r: RecordHeader, a: Bytes,
      g: Format, t: Salt, q: NoncePrefix, v: RecordHeader, b: Bytes)
    requires ChunkAad(HeaderBytes(f, s, p), r, a) == ChunkAad(HeaderBytes(g, t, q), v, b)
    ensures f == g && HeaderBytes(f, s, p) == HeaderBytes(g, t, q) && s == t && p == q && r == v && a == b
  {
    var h, k := HeaderBytes(f, s, p), HeaderBytes(g, t, q);
    var x, y := ChunkAad(h, r, a), ChunkAad(k, v, b);
    assert x[2] == h[2] && y[2] == k[2];
    assert f == g by {
      assert h[2] == (if f == Skf1 then 0x46 else 0x50);
      assert k[2] == (if g == Skf1 then 0x46 else 0x50);
    }
    var n := HeaderSize(f);
    assert h == x[..n] && k == y[..n];
    assert RecordBytes(r) == x[n..n + 9] && RecordBytes(v) == y[n..n + 9];
    assert a == x[n + 9..] && b == y[n + 9..];
    RecordBytesInjective(r, v);
    HeaderLayout(f, s, p);
    HeaderLayout(f, t, q);
  }

  // ---------------------------------------------------------------- keys

  /** What the caller seals with: a 32-byte key (SKF1) or password bytes (SKP1). */
  datatype Secret = MasterKey(key: Key) | Password(text: Bytes) {
    function Format(): Format {
      match this case MasterKey(_) => Skf1 case Password(_) => Skp1
    }
  }

  /** HKDF-SHA-256 and scrypt, as arbitrary functions of their inputs. */
  datatype Kdf = Kdf(
    hkdf: (Key, Bytes, Bytes) -> Key,
    scrypt: (Bytes, Bytes, u32, u32, u32, nat) -> Key)

  function DeriveKey(kdf: Kdf, secret: Secret, salt: Salt): Key {
    match secret
    case MasterKey(key) => kdf.hkdf(key, salt, INFO)
    case Password(text) => kdf.scrypt(text, salt, SCRYPT_N, SCRYPT_R, SCRYPT_P, SCRYPT_MAX_MEMORY)
  }
}
