/**
 * What the seal and open loops compute, as functions of their input: the writes they
 * attempt and how they end. The theorems about these functions are in the modules that
 * import this one; the loops themselves are proved against them in module FileStreams.
 */
module FileFormat {
  import opened ByteStrings
  import opened Gcm
  import opened FileCrypto
  import opened Streams

  const MAX_INDEX: u32 := 0xFFFF_FFFF

  /** What stays fixed while one file is processed. */
  datatype Context = Context(cipher: Cipher, key: Key, header: Bytes, noncePrefix: NoncePrefix, aad: Bytes) {
    /** The AAD of a chunk fits one backend call. */
    predicate AadFits() {
      |header| + RECORD_HEADER_SIZE + |aad| <= INT_MAX
    }
  }

  /** One chunk of plaintext with its place in the file. */
  datatype Chunk = Chunk(index: u32, final: bool, plain: Bytes) {
    predicate Fits() {
      |plain| <= CHUNK_SIZE && (!final ==> |plain| == CHUNK_SIZE)
    }

    function Header(): RecordHeader
      requires |plain| <= CHUNK_SIZE
    {
      RecordHeader(index, |plain|, final)
    }
  }

  // ---------------------------------------------------------------- sealing

  function SealChunk(c: Context, ch: Chunk): Result<Sealed>
    requires |ch.plain| <= CHUNK_SIZE
  {
    Encrypt(c.cipher, c.key, ChunkNonce(c.noncePrefix, ch.index), ChunkAad(c.header, ch.Header(), c.aad), ch.plain)
  }

  /** The seal loop from chunk `index` on, when the input still delivers `s`. */
  function SealFrom(c: Context, index: u32, s: Source): Run
    decreases |s.bytes|
  {
    if |s.bytes| <= CHUNK_SIZE && s.fault then Run([], Failed(BackendFailure))
    else
      var final := |s.bytes| <= CHUNK_SIZE;
      var chunk := Chunk(index, final, if final then s.bytes else s.bytes[..CHUNK_SIZE]);
      match SealChunk(c, chunk)
      case Err(e) => Run([], Failed(e))
      case Ok(sealed) =>
        var writes := [RecordBytes(chunk.Header()), sealed.text, sealed.tag];
        if final then Run(writes, Done)
        else if index == MAX_INDEX then Run(writes, Failed(InvalidInput))
        else
          var rest := SealFrom(c, index + 1, Source(s.bytes[CHUNK_SIZE..], s.fault));
          Run(writes + rest.writes, rest.outcome)
  }

  // ---------------------------------------------------------------- opening

  /** A record that was read and authenticated: its chunk, its bytes as they stood in the input, and what follows. */
  datatype Piece = Piece(chunk: Chunk, text: Bytes, tag: Tag, rest: Bytes)

  /** The report for input that ends too early. */
  function Short(fault: bool): ErrorCode {
    if fault then BackendFailure else InvalidPacket
  }

  /** One iteration of the open loop up to and including decryption. */
  function ReadRecord(c: Context, index: u32, s: Source): Result<Piece> {
    if |s.bytes| < RECORD_HEADER_SIZE then Err(Short(s.fault))
    else match ParseRecordHeader(s.bytes[..RECORD_HEADER_SIZE])
      case Err(e) => Err(e)
      case Ok(r) =>
        var body := s.bytes[RECORD_HEADER_SIZE..];
        if r.index != index then Err(InvalidPacket)
        else if !r.final && r.size != CHUNK_SIZE then Err(InvalidPacket)
        else if |body| < r.size + TAG_SIZE then Err(Short(s.fault))
        else if r.final && |body| > r.size + TAG_SIZE then Err(InvalidPacket)
        else if r.final && s.fault then Err(BackendFailure)
        else
          var text, tag := body[..r.size], body[r.size..r.size + TAG_SIZE];
          match Decrypt(c.cipher, c.key, ChunkNonce(c.noncePrefix, r.index), ChunkAad(c.header, r, c.aad), text, tag)
          case Err(e) => Err(e)
          case Ok(plain) => Ok(Piece(Chunk(index, r.final, plain), text, tag, body[r.size + TAG_SIZE..]))
  }

  /** The open loop from record `index` on, when the input still delivers `s`. */
  function OpenFrom(c: Context, index: u32, s: Source): Run
    decreases |s.bytes|
  {
    match ReadRecord(c, index, s)
    case Err(e) => Run([], Failed(e))
    case Ok(p) =>
      if p.chunk.final then Run([p.chunk.plain], Done)
      else if index == MAX_INDEX then Run([p.chunk.plain], Failed(InvalidPacket))
      else
        var rest := OpenFrom(c, index + 1, Source(p.rest, s.fault));
        Run([p.chunk.plain] + rest.writes, rest.outcome)
  }

  // ---------------------------------------------------------------- whole files

  /** The backend: cipher and key derivation. */
  datatype Backend = Backend(cipher: Cipher, kdf: Kdf)

  function ContextOf(b: Backend, secret: Secret, h: FileHeader, aad: Bytes): Context {
    Context(b.cipher, DeriveKey(b.kdf, secret, h.salt), h.serialized, h.noncePrefix, aad)
  }

  predicate EmptyPassword(secret: Secret) {
    secret.Password? && secret.text == []
  }

  function NewHeader(secret: Secret, salt: Salt, noncePrefix: NoncePrefix): FileHeader {
    FileHeader(HeaderBytes(secret.Format(), salt, noncePrefix), salt, noncePrefix)
  }

  /** Sealing a whole stream with the given random salt and nonce prefix. */
  function SealRun(b: Backend, secret: Secret, aad: Bytes, salt: Salt, noncePrefix: NoncePrefix, s: Source): Run {
    if EmptyPassword(secret) then Run([], Failed(InvalidInput))
    else
      var h := NewHeader(secret, salt, noncePrefix);
      var body := SealFrom(ContextOf(b, secret, h, aad), 0, s);
      Run([h.serialized] + body.writes, body.outcome)
  }

  /** Opening a whole stream. */
  function OpenRun(b: Backend, secret: Secret, aad: Bytes, s: Source): Run {
    var n := HeaderSize(secret.Format());
    if EmptyPassword(secret) then Run([], Failed(InvalidInput))
    else if |s.bytes| < n then Run([], Failed(Short(s.fault)))
    else match ParseHeaderOf(secret.Format(), s.bytes[..n])
      case Err(e) => Run([], Failed(e))
      case Ok(h) => OpenFrom(ContextOf(b, secret, h, aad), 0, Source(s.bytes[n..], s.fault))
  }
}
