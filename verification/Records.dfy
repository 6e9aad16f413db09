/** Records on the wire: which byte strings one iteration of the open loop accepts, and why it rejects the others. */
module Records {
  import opened ByteStrings
  import opened Gcm
  import opened FileCrypto
  import opened Streams
  import opened FileFormat

  /** The bytes of a chunk: record header, ciphertext, tag. */
  function Frame(c: Context, ch: Chunk): (r: Bytes)
    requires |ch.plain| <= CHUNK_SIZE
    ensures |r| == RECORD_HEADER_SIZE + |ch.plain| + TAG_SIZE
  {
    var nonce := ChunkNonce(c.noncePrefix, ch.index);
    var text := Mask(c.cipher, c.key, nonce, 0, ch.plain);
    RecordBytes(ch.Header()) + text + c.cipher.tag(c.key, nonce, ChunkAad(c.header, ch.Header(), c.aad), text)
  }

  /** `s` starts with a record of index `index` that is complete and well placed, whatever its tag. */
  ghost predicate Framed(index: u32, s: Source, final: bool, text: Bytes, tag: Tag, rest: Bytes) {
    && |text| <= CHUNK_SIZE
    && (!final ==> |text| == CHUNK_SIZE)
    && (final ==> rest == [] && !s.fault)
    && s.bytes == RecordBytes(RecordHeader(index, |text|, final)) + text + tag + rest
  }

  ghost predicate WellPlaced(index: u32, s: Source) {
    exists final: bool, text: Bytes, tag: Tag, rest: Bytes :: Framed(index, s, final, text, tag, rest)
  }

  /** `s` starts with a record header that may stand at `index`. */
  predicate StartsRecord(index: u32, s: Source) {
    && |s.bytes| >= RECORD_HEADER_SIZE
    && match ParseRecordHeader(s.bytes[..RECORD_HEADER_SIZE])
       case Err(_) => false
       case Ok(r) => r.index == index && (!r.final ==> r.size == CHUNK_SIZE)
  }

  /** How long the record is that `s` starts with. */
  function RecordSize(index: u32, s: Source): nat
    requires StartsRecord(index, s)
  {
    RECORD_HEADER_SIZE + ParseRecordHeader(s.bytes[..RECORD_HEADER_SIZE]).value.size + TAG_SIZE
  }

  /** The record header, or the record it starts, is cut short. */
  predicate CutShort(index: u32, s: Source) {
    |s.bytes| < RECORD_HEADER_SIZE || (StartsRecord(index, s) && |s.bytes| < RecordSize(index, s))
  }

  /** A complete final record with nothing after it. */
  predicate EndsWithFinal(index: u32, s: Source) {
    && StartsRecord(index, s) && ParseRecordHeader(s.bytes[..RECORD_HEADER_SIZE]).value.final
    && |s.bytes| == RecordSize(index, s)
  }

  function RecordTag(c: Context, index: u32, final: bool, text: Bytes): Tag
    requires |text| <= CHUNK_SIZE
  {
    var aad := ChunkAad(c.header, RecordHeader(index, |text|, final), c.aad);
    c.cipher.tag(c.key, ChunkNonce(c.noncePrefix, index), aad, text)
  }

  /** A well placed record is judged by the AAD limit first and its tag second. */
  lemma {:induction false} FramedIsJudged(
      c: Context, index: u32, s: Source, final: bool, text: Bytes, tag: Tag, rest: Bytes)
    requires Framed(index, s, final, text, tag, rest)
    ensures ReadRecord(c, index, s)
            == if !c.AadFits() then Err(InvalidInput)
               else if tag != RecordTag(c, index, final, text) then Err(AuthenticationFailed)
               else
                 var plain := Mask(c.cipher, c.key, ChunkNonce(c.noncePrefix, index), 0, text);
                 Ok(Piece(Chunk(index, final, plain), text, tag, rest))
  {
    var r := RecordHeader(index, |text|, final);
    var n := RECORD_HEADER_SIZE;
    assert s.bytes[..n] == RecordBytes(r);
    RecordCodecExact(s.bytes[..n], r);
    var body := s.bytes[n..];
    assert body == text + tag + rest;
    assert body[..r.size] == text && body[r.size..r.size + TAG_SIZE] == tag && body[r.size + TAG_SIZE..] == rest;
  }

  /** Without a well placed record the input is malformed, unless a device fault is what ended it. */
  lemma {:induction false} UnframedIsRejected(c: Context, index: u32, s: Source)
    requires !WellPlaced(index, s)
    ensures ReadRecord(c, index, s)
            == Err(if s.fault && (CutShort(index, s) || EndsWithFinal(index, s)) then BackendFailure else InvalidPacket)
  {
    var n := RECORD_HEADER_SIZE;
    if |s.bytes| >= n && ParseRecordHeader(s.bytes[..n]).Ok? {
      var r := ParseRecordHeader(s.bytes[..n]).value;
      RecordCodecExact(s.bytes[..n], r);
      var body := s.bytes[n..];
      if |body| >= r.size + TAG_SIZE {
        var text, rest := body[..r.size], body[r.size + TAG_SIZE..];
        var tag := body[r.size..r.size + TAG_SIZE];
        assert |tag| == TAG_SIZE;
        assert s.bytes == RecordBytes(r) + text + tag + rest;
        assert !Framed(index, s, r.final, text, tag, rest);
      }
    } else if |s.bytes| >= n {
      RecordCodecExact(s.bytes[..n], RecordHeader(0, 0, false));
    }
  }

  /**
   * One iteration accepts exactly the frame of a chunk that fits, followed by anything for a
   * non-final chunk and by a proper end of input for the final one.
   */
  lemma {:induction false} ReadRecordExact(c: Context, index: u32, s: Source, p: Piece)
    ensures ReadRecord(c, index, s) == Ok(p) <==>
            && c.AadFits() && p.chunk.Fits() && p.chunk.index == index
            && s.bytes == Frame(c, p.chunk) + p.rest
            && (p.chunk.final ==> p.rest == [] && !s.fault)
            && SealChunk(c, p.chunk) == Ok(Sealed(p.text, p.tag))
  {
    var nonce := ChunkNonce(c.noncePrefix, index);
    if ReadRecord(c, index, s) == Ok(p) {
      if !WellPlaced(index, s) {
        UnframedIsRejected(c, index, s);
        assert false;
      } else {
        var final: bool, text: Bytes, tag: Tag, rest: Bytes :| Framed(index, s, final, text, tag, rest);
        FramedIsJudged(c, index, s, final, text, tag, rest);
        MaskTwice(c.cipher, c.key, nonce, 0, text);
      }
    }
    if c.AadFits() && p.chunk.Fits() && p.chunk.index == index && s.bytes == Frame(c, p.chunk) + p.rest
       && (p.chunk.final ==> p.rest == [] && !s.fault) && SealChunk(c, p.chunk) == Ok(Sealed(p.text, p.tag)) {
      assert Framed(index, s, p.chunk.final, p.text, p.tag, p.rest);
      FramedIsJudged(c, index, s, p.chunk.final, p.text, p.tag, p.rest);
      MaskTwice(c.cipher, c.key, nonce, 0, p.chunk.plain);
    }
  }

  lemma {:induction false} FramedIsWhole(index: u32, s: Source, final: bool, text: Bytes, tag: Tag, rest: Bytes)
    requires Framed(index, s, final, text, tag, rest)
    ensures !CutShort(index, s) && (s.fault ==> !EndsWithFinal(index, s))
  {
    var r := RecordHeader(index, |text|, final);
    assert s.bytes[..RECORD_HEADER_SIZE] == RecordBytes(r);
    RecordCodecExact(s.bytes[..RECORD_HEADER_SIZE], r);
  }

  /** Each verdict of one iteration, told by the shape of the input alone. */
  lemma {:induction false} RecordVerdict(c: Context, index: u32, s: Source)
    ensures ReadRecord(c, index, s) == Err(AuthenticationFailed) <==>
            c.AadFits() && exists final: bool, text: Bytes, tag: Tag, rest: Bytes ::
              Framed(index, s, final, text, tag, rest) && tag != RecordTag(c, index, final, text)
    ensures ReadRecord(c, index, s) == Err(InvalidInput) <==>
            !c.AadFits() && WellPlaced(index, s)
    ensures ReadRecord(c, index, s) == Err(BackendFailure) <==>
            s.fault && (CutShort(index, s) || EndsWithFinal(index, s))
    ensures ReadRecord(c, index, s) == Err(InvalidPacket) <==>
            !WellPlaced(index, s) && !(s.fault && (CutShort(index, s) || EndsWithFinal(index, s)))
  {
    if WellPlaced(index, s) {
      var final: bool, text: Bytes, tag: Tag, rest: Bytes :| Framed(index, s, final, text, tag, rest);
      FramedIsJudged(c, index, s, final, text, tag, rest);
      FramedIsWhole(index, s, final, text, tag, rest);
      forall f: bool, x: Bytes, t: Tag, y: Bytes | Framed(index, s, f, x, t, y)
        ensures t != RecordTag(c, index, f, x) ==> c.AadFits() ==> tag != RecordTag(c, index, final, text)
      {
        FramedIsJudged(c, index, s, f, x, t, y);
      }
    } else {
      UnframedIsRejected(c, index, s);
    }
  }
}
