/** The seal and open loops over streams, proved against the functions of module FileFormat. */
module FileStreams {
  import opened ByteStrings
  import opened Gcm
  import opened FileCrypto
  import opened Streams
  import opened FileFormat
  import opened Sealing

  /** The crypto backend, with a record of every nonce it was asked to encrypt under. */
  class Crypto {
    const backend: Backend
    ghost var nonces: seq<Bytes>

    constructor (backend: Backend)
      ensures this.backend == backend && nonces == []
    {
      this.backend := backend;
      nonces := [];
    }

    method EncryptChunk(plain: Bytes, key: Key, nonce: Bytes, aad: Bytes) returns (r: Result<Sealed>)
      modifies this
      ensures r == Encrypt(backend.cipher, key, nonce, aad, plain)
      ensures nonces == old(nonces) + [nonce]
    {
      nonces := nonces + [nonce];
      r := Encrypt(backend.cipher, key, nonce, aad, plain);
    }
  }

  /** The nonces of the first `n` chunks. */
  ghost function NonceRun(noncePrefix: NoncePrefix, n: nat): seq<Bytes>
    requires n <= U32_LIMIT
  {
    seq(n, i requires 0 <= i < n => ChunkNonce(noncePrefix, i))
  }

  /** `after` extends `before` by the nonces of the first chunks, counted from zero, each once. */
  ghost predicate UsedLeadingNonces(noncePrefix: NoncePrefix, before: seq<Bytes>, after: seq<Bytes>) {
    exists n: nat :: n <= U32_LIMIT && after == before + NonceRun(noncePrefix, n)
  }

  /** Nonces that were used so are pairwise distinct. */
  lemma {:induction false} UsedNoncesDistinct(noncePrefix: NoncePrefix, before: seq<Bytes>, after: seq<Bytes>)
    requires UsedLeadingNonces(noncePrefix, before, after)
    ensures before <= after && forall j, k | |before| <= j < k < |after| :: after[j] != after[k]
  {
    var n: nat :| n <= U32_LIMIT && after == before + NonceRun(noncePrefix, n);
    forall j, k | |before| <= j < k < |after|
      ensures after[j] != after[k]
    {
      if after[j] == after[k] {
        ChunkNonceInjective(noncePrefix, j - |before|, noncePrefix, k - |before|);
      }
    }
  }

  lemma {:induction false} NoneUsed(noncePrefix: NoncePrefix, before: seq<Bytes>)
    ensures NonceRun(noncePrefix, 0) == [] && UsedLeadingNonces(noncePrefix, before, before)
  {
    assert before + NonceRun(noncePrefix, 0) == before;
  }

  // ---------------------------------------------------------------- sealing

  /** Reads the next chunk into the buffer and looks ahead to decide whether it is the final one. */
  method ReadChunk(input: InputStream, buffer: array<byte>) returns (r: Result<(u32, bool)>)
    requires input.Valid() && buffer.Length == CHUNK_SIZE
    modifies input, buffer
    ensures input.Valid()
    ensures var s := old(input.SealSource());
            if |s.bytes| <= CHUNK_SIZE && s.fault then r == Err(BackendFailure)
            else if |s.bytes| <= CHUNK_SIZE then r == Ok((|s.bytes|, true)) && buffer[..|s.bytes|] == s.bytes
            else
              && r == Ok((CHUNK_SIZE, false)) && buffer[..] == s.bytes[..CHUNK_SIZE]
              && input.SealSource() == Source(s.bytes[CHUNK_SIZE..], s.fault)
  {
    var count := input.Read(buffer, CHUNK_SIZE);
    if !input.eof && (input.fail || input.bad) {
      return Err(BackendFailure);
    }
    var isFinal := count < CHUNK_SIZE;
    if !isFinal {
      var atEnd := input.Peek();
      if atEnd {
        if input.bad {
          return Err(BackendFailure);
        }
        isFinal := true;
      }
    }
    return Ok((count, isFinal));
  }

  method WriteRecord(output: OutputStream, record: Bytes, sealed: Sealed) returns (r: Result<()>)
    modifies output
    ensures var s1 := old(output.State()).Write(record);
            var s2 := s1.Write(sealed.text);
            output.State() == (if s1.failed then s1 else if s2.failed then s2 else s2.Write(sealed.tag))
    ensures r == if output.failed then Err(BackendFailure) else Ok(())
  {
    r := output.WriteAll(record);
    if r.Err? {
      return;
    }
    r := output.WriteAll(sealed.text);
    if r.Err? {
      return;
    }
    r := output.WriteAll(sealed.tag);
  }

  datatype SealedChunk = SealedChunk(record: Bytes, sealed: Sealed, final: bool)

  /** What an iteration of the seal loop does before its writes: read, look ahead, encrypt. */
  method SealNextChunk(
      input: InputStream, buffer: array<byte>, header: Bytes, noncePrefix: NoncePrefix, key: Key, aad: Bytes,
      chunkIndex: u32, crypto: Crypto)
    returns (r: Result<SealedChunk>)
    requires input.Valid() && buffer.Length == CHUNK_SIZE
    modifies input, buffer, crypto
    ensures input.Valid()
    ensures || crypto.nonces == old(crypto.nonces) + [ChunkNonce(noncePrefix, chunkIndex)]
            || (r.Err? && crypto.nonces == old(crypto.nonces))
    ensures var c := Context(crypto.backend.cipher, key, header, noncePrefix, aad);
            var s := old(input.SealSource());
            match r
            case Err(e) => SealFrom(c, chunkIndex, s) == Run([], Failed(e))
            case Ok(x) =>
              && (!x.final ==> |s.bytes| > CHUNK_SIZE && input.SealSource() == Source(s.bytes[CHUNK_SIZE..], s.fault))
              && var rest := SealRest(c, chunkIndex, x.final, s);
                 SealFrom(c, chunkIndex, s) == Run([x.record, x.sealed.text, x.sealed.tag] + rest.writes, rest.outcome)
  {
    hide SealFrom, RecordBytes, Encrypt, ChunkNonce, SealRest;
    ghost var c := Context(crypto.backend.cipher, key, header, noncePrefix, aad);
    ghost var s := input.SealSource();
    SealStep(c, chunkIndex, s);
    var chunkRead := ReadChunk(input, buffer);
    if chunkRead.Err? {
      return Err(chunkRead.error);
    }
    var (count, isFinal) := chunkRead.value;
    var plain := buffer[..count];
    assert plain == if isFinal then s.bytes else s.bytes[..CHUNK_SIZE];
    var record := MakeRecordHeader(RecordHeader(chunkIndex, count, isFinal));
    var nonce := MakeNonce(noncePrefix, chunkIndex);
    var chunkAad := MakeChunkAad(header, record[..], aad);
    var encrypted := crypto.EncryptChunk(plain, key, nonce[..], chunkAad);
    assert encrypted == SealChunk(c, Chunk(chunkIndex, isFinal, plain));
    if encrypted.Err? {
      return Err(encrypted.error);
    }
    return Ok(SealedChunk(record[..], encrypted.value, isFinal));
  }

  method SealStreamPayload(
      input: InputStream, output: OutputStream, header: Bytes, noncePrefix: NoncePrefix, key: Key, aad: Bytes,
      crypto: Crypto)
    returns (outcome: Outcome)
    requires input.Valid()
    modifies input, output, crypto
    ensures input.Valid()
    ensures var c := Context(crypto.backend.cipher, key, header, noncePrefix, aad);
            var body := SealFrom(c, 0, old(input.SealSource()));
            Finished(output.State(), outcome)
            == Execute(old(output.State()), Run([header] + body.writes, body.outcome))
    ensures UsedLeadingNonces(noncePrefix, old(crypto.nonces), crypto.nonces)
  {
    hide SealFrom, Execute, ChunkNonce, NonceRun;
    ghost var c := Context(crypto.backend.cipher, key, header, noncePrefix, aad);
    ghost var whole := SealFrom(c, 0, input.SealSource());
    ghost var end := Execute(output.State(), Run([header] + whole.writes, whole.outcome));
    ExecuteStep(output.State(), header, whole.writes, whole.outcome);
    NoneUsed(noncePrefix, crypto.nonces);
    var written := output.WriteAll(header);
    if written.Err? {
      return Failed(written.error);
    }

    var buffer := new byte[CHUNK_SIZE];
    var chunkIndex: u32 := 0;
    var wroteFinal := false;
    while !wroteFinal
      invariant input.Valid() && fresh(buffer) && buffer.Length == CHUNK_SIZE
      invariant UsedLeadingNonces(noncePrefix, old(crypto.nonces), crypto.nonces)
      invariant !wroteFinal ==>
                  && crypto.nonces == old(crypto.nonces) + NonceRun(noncePrefix, chunkIndex) && !output.failed
                  && end == Execute(output.State(), SealFrom(c, chunkIndex, input.SealSource()))
      invariant wroteFinal ==> end == Finished(output.State(), Done)
      decreases !wroteFinal, |input.SealSource().bytes|
    {
      ghost var s, now := input.SealSource(), output.State();
      ExecuteNothing(now, SealFrom(c, chunkIndex, s).outcome);
      NextNonceUsed(noncePrefix, old(crypto.nonces), chunkIndex);
      var next := SealNextChunk(input, buffer, header, noncePrefix, key, aad, chunkIndex, crypto);
      if next.Err? {
        return Failed(next.error);
      }
      ghost var rest := SealRest(c, chunkIndex, next.value.final, s);
      ExecuteRecord(now, next.value.record, next.value.sealed.text, next.value.sealed.tag, rest);
      written := WriteRecord(output, next.value.record, next.value.sealed);
      if written.Err? {
        return Failed(written.error);
      }

      ExecuteNothing(output.State(), rest.outcome);
      wroteFinal := next.value.final;
      if chunkIndex == MAX_INDEX && !wroteFinal {
        return Failed(InvalidInput);
      }
      chunkIndex := (chunkIndex + 1) % U32_LIMIT;
    }
    outcome := Done;
  }

  /** Encrypting one more chunk keeps to the leading nonces. */
  lemma {:induction false} NextNonceUsed(noncePrefix: NoncePrefix, before: seq<Bytes>, n: u32)
    ensures var after := before + NonceRun(noncePrefix, n) + [ChunkNonce(noncePrefix, n)];
            after == before + NonceRun(noncePrefix, n + 1) && UsedLeadingNonces(noncePrefix, before, after)
  {
    assert NonceRun(noncePrefix, n + 1) == NonceRun(noncePrefix, n) + [ChunkNonce(noncePrefix, n)];
  }

  /** What is left of a seal run after a chunk was written. */
  ghost function SealRest(c: Context, index: u32, final: bool, s: Source): Run
    requires !final ==> |s.bytes| > CHUNK_SIZE
  {
    if final then Run([], Done)
    else if index == MAX_INDEX then Run([], Failed(InvalidInput))
    else SealFrom(c, index + 1, Source(s.bytes[CHUNK_SIZE..], s.fault))
  }

  lemma {:induction false} SealStep(c: Context, index: u32, s: Source)
    ensures SealFrom(c, index, s)
            == if |s.bytes| <= CHUNK_SIZE && s.fault then Run([], Failed(BackendFailure))
               else
                 var final := |s.bytes| <= CHUNK_SIZE;
                 var chunk := Chunk(index, final, if final then s.bytes else s.bytes[..CHUNK_SIZE]);
                 match SealChunk(c, chunk)
                 case Err(e) => Run([], Failed(e))
                 case Ok(x) =>
                   var rest := SealRest(c, index, final, s);
                   Run([RecordBytes(chunk.Header()), x.text, x.tag] + rest.writes, rest.outcome)
  {
    hide SealChunk, RecordBytes;
    assert forall w: seq<Bytes> :: w + [] == w;
  }

  /** Performing the three writes of a record. */
  lemma {:induction false} ExecuteRecord(s: Sink, a: Bytes, b: Bytes, t: Bytes, rest: Run)
    ensures Execute(s, Run([a, b, t] + rest.writes, rest.outcome))
            == var s1 := s.Write(a);
               var s2 := s1.Write(b);
               var s3 := s2.Write(t);
               if s1.failed then Finished(s1, Failed(BackendFailure))
               else if s2.failed then Finished(s2, Failed(BackendFailure))
               else if s3.failed then Finished(s3, Failed(BackendFailure))
               else Execute(s3, rest)
  {
    hide Execute;
    var w := rest.writes;
    assert [a, b, t] + w == [a] + ([b] + ([t] + w));
    ExecuteStep(s, a, [b] + ([t] + w), rest.outcome);
    ExecuteStep(s.Write(a), b, [t] + w, rest.outcome);
    ExecuteStep(s.Write(a).Write(b), t, w, rest.outcome);
  }

  lemma {:induction false} ExecuteNothing(s: Sink, outcome: Outcome)
    ensures Execute(s, Run([], outcome)) == Finished(s, outcome)
  {
  }

  // ---------------------------------------------------------------- opening

  method OpenFilePayload(
      input: InputStream, output: OutputStream, header: Bytes, noncePrefix: NoncePrefix, key: Key,
      aad: Bytes, crypto: Crypto)
    returns (outcome: Outcome)
    requires input.Valid()
    modifies input, output
    ensures input.Valid()
    ensures var c := Context(crypto.backend.cipher, key, header, noncePrefix, aad);
            Finished(output.State(), outcome)
            == Execute(old(output.State()), OpenFrom(c, 0, old(input.OpenSource())))
  {
    hide OpenFrom, ReadRecord, Execute;
    ghost var c := Context(crypto.backend.cipher, key, header, noncePrefix, aad);
    ghost var end := Execute(output.State(), OpenFrom(c, 0, input.OpenSource()));
    var expectedIndex: u32 := 0;
    var sawFinal := false;
    while !sawFinal
      invariant input.Valid()
      invariant !sawFinal ==> end == Execute(output.State(), OpenFrom(c, expectedIndex, input.OpenSource()))
      invariant sawFinal ==> end == Finished(output.State(), Done)
      decreases !sawFinal, |input.OpenSource().bytes|
    {
      ghost var s := input.OpenSource();
      ghost var now := output.State();
      OpenStep(c, expectedIndex, s);
      ExecuteNothing(now, OpenFrom(c, expectedIndex, s).outcome);
      var record, plain := ReadAndDecrypt(input, header, noncePrefix, key, aad, expectedIndex, crypto);
      if record.Err? {
        return Failed(record.error);
      }
      ghost var p := ReadRecord(c, expectedIndex, s).value;
      ghost var rest := OpenRest(c, expectedIndex, p, s.fault);
      ExecuteStep(now, plain, rest.writes, rest.outcome);
      var written := output.WriteAll(plain);
      if written.Err? {
        return Failed(written.error);
      }
      ExecuteNothing(output.State(), rest.outcome);

      sawFinal := record.value.final;
      if expectedIndex == MAX_INDEX && !sawFinal {
        return Failed(InvalidPacket);
      }
      expectedIndex := (expectedIndex + 1) % U32_LIMIT;
    }
    outcome := Done;
  }

  /** Reads exactly `n` bytes; input that ends too early is malformed. */
  method Take(input: InputStream, n: nat) returns (r: Result<Bytes>)
    requires input.Valid() && (n > 0 || input.Good())
    modifies input
    ensures input.Valid()
    ensures var s := old(input.OpenSource());
            if n <= |s.bytes| then
              r == Ok(s.bytes[..n]) && input.Good() && input.OpenSource() == Source(s.bytes[n..], s.fault)
            else r == Err(Short(s.fault))
  {
    var buffer := new byte[n];
    var complete := input.ReadExact(buffer, n);
    if complete.Err? {
      return Err(complete.error);
    }
    if !complete.value {
      return Err(InvalidPacket);
    }
    assert buffer[..] == buffer[..n];
    return Ok(buffer[..]);
  }

  /** Reads one record, checks its place and what follows it, and only then decrypts it. */
  method ReadAndDecrypt(
      input: InputStream, header: Bytes, noncePrefix: NoncePrefix, key: Key, aad: Bytes,
      expectedIndex: u32, crypto: Crypto)
    returns (r: Result<RecordHeader>, plain: Bytes)
    requires input.Valid()
    modifies input
    ensures input.Valid()
    ensures var c := Context(crypto.backend.cipher, key, header, noncePrefix, aad);
            match ReadRecord(c, expectedIndex, old(input.OpenSource()))
            case Err(e) => r == Err(e)
            case Ok(p) =>
              && r == Ok(p.chunk.Header()) && plain == p.chunk.plain
              && |p.rest| < |old(input.OpenSource()).bytes|
              && (!p.chunk.final ==> input.OpenSource() == Source(p.rest, old(input.OpenSource()).fault))
  {
    hide Decrypt, RecordBytes, ParseRecordHeader;
    ghost var c := Context(crypto.backend.cipher, key, header, noncePrefix, aad);
    ghost var s := input.OpenSource();
    plain := [];
    var recordBytes := Take(input, RECORD_HEADER_SIZE);
    if recordBytes.Err? {
      return Err(recordBytes.error), [];
    }
    var parsed := ParseRecordHeader(recordBytes.value);
    if parsed.Err? {
      return Err(parsed.error), [];
    }
    var record := parsed.value;
    if record.index != expectedIndex {
      return Err(InvalidPacket), [];
    }
    if !record.final && record.size != CHUNK_SIZE {
      return Err(InvalidPacket), [];
    }

    ghost var body := s.bytes[RECORD_HEADER_SIZE..];
    var text := Take(input, record.size);
    if text.Err? {
      return Err(text.error), [];
    }
    var tag := Take(input, TAG_SIZE);
    if tag.Err? {
      return Err(tag.error), [];
    }
    assert tag.value == body[record.size..][..TAG_SIZE] == body[record.size..record.size + TAG_SIZE];
    ghost var left := body[record.size + TAG_SIZE..];
    assert input.OpenSource() == Source(left, s.fault);
    if record.final {
      var trailing := input.RejectTrailingData();
      if trailing.Err? {
        return Err(trailing.error), [];
      }
    }

    var nonce := MakeNonce(noncePrefix, record.index);
    RecordCodecExact(recordBytes.value, record);
    var chunkAad := MakeChunkAad(header, recordBytes.value, aad);
    var decrypted := Decrypt(crypto.backend.cipher, key, nonce[..], chunkAad, text.value, tag.value);
    assert ReadRecord(c, expectedIndex, s)
           == match decrypted
              case Err(e) => Err(e)
              case Ok(x) => Ok(Piece(Chunk(expectedIndex, record.final, x), text.value, tag.value, left));
    if decrypted.Err? {
      return Err(decrypted.error), [];
    }
    DecryptKeepsSize(crypto.backend.cipher, key, nonce[..], chunkAad, text.value, tag.value);
    return Ok(record), decrypted.value;
  }

  lemma {:induction false} DecryptKeepsSize(c: Cipher, key: Key, nonce: Bytes, aad: Bytes, text: Bytes, tag: Tag)
    requires Decrypt(c, key, nonce, aad, text, tag).Ok?
    ensures |Decrypt(c, key, nonce, aad, text, tag).value| == |text|
  {
  }

  /** What is left of an open run after a record was written. */
  ghost function OpenRest(c: Context, index: u32, p: Piece, fault: bool): Run {
    if p.chunk.final then Run([], Done)
    else if index == MAX_INDEX then Run([], Failed(InvalidPacket))
    else OpenFrom(c, index + 1, Source(p.rest, fault))
  }

  lemma {:induction false} OpenStep(c: Context, index: u32, s: Source)
    ensures OpenFrom(c, index, s)
            == match ReadRecord(c, index, s)
               case Err(e) => Run([], Failed(e))
               case Ok(p) =>
                 var rest := OpenRest(c, index, p, s.fault);
                 Run([p.chunk.plain] + rest.writes, rest.outcome)
  {
    hide ReadRecord;
    assert forall w: seq<Bytes> :: w + [] == w;
  }

  // ---------------------------------------------------------------- the stream interface

  /** `seal_file` and `seal_file_with_password` on streams; `salt` and `noncePrefix` are the random bytes drawn. */
  method SealFile(
      input: InputStream, output: OutputStream, secret: Secret, aad: Bytes, crypto: Crypto, salt: Salt,
      noncePrefix: NoncePrefix)
    returns (outcome: Outcome)
    requires input.Valid()
    modifies input, output, crypto
    ensures Finished(output.State(), outcome)
            == Execute(old(output.State()),
                       SealRun(crypto.backend, secret, aad, salt, noncePrefix, old(input.SealSource())))
    ensures UsedLeadingNonces(noncePrefix, old(crypto.nonces), crypto.nonces)
  {
    hide SealFrom, Execute;
    if secret.Password? && secret.text == [] {
      NoneUsed(noncePrefix, crypto.nonces);
      ExecuteNothing(output.State(), Failed(InvalidInput));
      return Failed(InvalidInput);
    }
    var header: FileHeader;
    match secret {
      case MasterKey(_) => header := MakeHeader(salt, noncePrefix);
      case Password(_) => header := MakePasswordHeader(salt, noncePrefix);
    }
    var fileKey := DeriveKey(crypto.backend.kdf, secret, header.salt);
    outcome := SealStreamPayload(input, output, header.serialized, header.noncePrefix, fileKey, aad, crypto);
  }

  /** Reads and parses a file header. */
  method ReadHeader(input: InputStream, f: Format) returns (r: Result<FileHeader>)
    requires input.Valid()
    modifies input
    ensures input.Valid()
    ensures var s := old(input.OpenSource());
            var n := HeaderSize(f);
            if |s.bytes| < n then r == Err(Short(s.fault))
            else r == ParseHeaderOf(f, s.bytes[..n]) && input.OpenSource() == Source(s.bytes[n..], s.fault)
  {
    hide ParseHeaderOf;
    var headerBytes := Take(input, HeaderSize(f));
    if headerBytes.Err? {
      return Err(headerBytes.error);
    }
    r := ParseHeaderOf(f, headerBytes.value);
  }

  /** `open_file` and `open_file_with_password` on streams. */
  method OpenFile(input: InputStream, output: OutputStream, secret: Secret, aad: Bytes, crypto: Crypto)
    returns (outcome: Outcome)
    requires input.Valid()
    modifies input, output
    ensures Finished(output.State(), outcome)
            == Execute(old(output.State()), OpenRun(crypto.backend, secret, aad, old(input.OpenSource())))
  {
    hide OpenFrom, Execute, ParseHeaderOf;
    ghost var s := input.OpenSource();
    ExecuteNothing(output.State(), OpenRun(crypto.backend, secret, aad, s).outcome);
    if secret.Password? && secret.text == [] {
      return Failed(InvalidInput);
    }
    var parsed := ReadHeader(input, secret.Format());
    if parsed.Err? {
      return Failed(parsed.error);
    }
    var header := parsed.value;
    var fileKey := DeriveKey(crypto.backend.kdf, secret, header.salt);
    outcome := OpenFilePayload(input, output, header.serialized, header.noncePrefix, fileKey, aad, crypto);
  }

  // ---------------------------------------------------------------- the loops together

  /**
   * The round trip of the loops: sealing `data` into memory succeeds exactly if secret and AAD
   * are usable and there are at most 2^32 chunks, and opening the result then gives `data` back.
   */
  method SealThenOpen(
      data: Bytes, secret: Secret, aad: Bytes, crypto: Crypto, salt: Salt, noncePrefix: NoncePrefix)
    returns (sealed: Outcome, reopened: Outcome, plain: Bytes)
    modifies crypto
    ensures sealed == Done <==> Usable(secret, aad) && |data| <= U32_LIMIT * CHUNK_SIZE
    ensures sealed == Done ==> reopened == Done && plain == data
  {
    hide Execute, SealRun, OpenRun;
    ghost var b := crypto.backend;
    var input := new InputStream(data, false);
    assert input.SealSource() == Source(data, false);
    ghost var run := SealRun(b, secret, aad, salt, noncePrefix, Source(data, false));
    SealExact(b, secret, aad, salt, noncePrefix, Source(data, false));
    RoundTrip(b, secret, aad, salt, noncePrefix, Source(data, false));
    var file := new OutputStream(None);
    ExecuteUnlimited(file.State(), run);
    sealed := SealFile(input, file, secret, aad, crypto, salt, noncePrefix);
    if sealed != Done {
      return sealed, sealed, [];
    }
    assert file.bytes == [] + Concat(run.writes) == Concat(run.writes);
    var again := new InputStream(file.bytes, false);
    assert again.OpenSource() == Source(file.bytes, false);
    var output := new OutputStream(None);
    ExecuteUnlimited(output.State(), OpenRun(b, secret, aad, Source(file.bytes, false)));
    reopened := OpenFile(again, output, secret, aad, crypto);
    plain := output.bytes;
  }

  /** A stream that has failed before it ended can be neither sealed nor opened. */
  lemma {:induction false} FailedStreams(
      b: Backend, secret: Secret, aad: Bytes, salt: Salt, noncePrefix: NoncePrefix, input: InputStream)
    requires input.Valid() && !input.eof && (input.fail || input.bad) && secret != Password([])
    ensures SealRun(b, secret, aad, salt, noncePrefix, input.SealSource())
            == Run([HeaderBytes(secret.Format(), salt, noncePrefix)], Failed(BackendFailure))
    ensures OpenRun(b, secret, aad, input.OpenSource()) == Run([], Failed(BackendFailure))
  {
    hide HeaderBytes;
  }

  /**
   * A stream that is already at end of file: sealing it writes the sealed file of the empty text,
   * whether or not the bad bit is set, while opening it tells the two apart.
   */
  lemma {:induction false} EndedStreams(
      b: Backend, secret: Secret, aad: Bytes, salt: Salt, noncePrefix: NoncePrefix, input: InputStream)
    requires input.Valid() && input.eof && Usable(secret, aad)
    ensures var run := SealRun(b, secret, aad, salt, noncePrefix, input.SealSource());
            run.outcome == Done && Concat(run.writes) == SealedFile(b, secret, aad, salt, noncePrefix, [])
    ensures OpenRun(b, secret, aad, input.OpenSource())
            == Run([], Failed(if input.bad then BackendFailure else InvalidPacket))
  {
    hide SealRun;
    SealExact(b, secret, aad, salt, noncePrefix, input.SealSource());
  }
}
