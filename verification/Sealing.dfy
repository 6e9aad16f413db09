/** What seal writes for every input, when it succeeds, and that no nonce is used twice. */
module Sealing {
  import opened ByteStrings
  import opened FileCrypto
  import opened Streams
  import opened FileFormat
  import opened Records
  import opened Acceptance

  /** The chunks the seal loop encrypts: full ones while input remains, then the final one unless reading fails. */
  function SealPlan(index: u32, s: Source): (plan: Plan)
    ensures AllFit(plan)
    decreases |s.bytes|
  {
    if |s.bytes| <= CHUNK_SIZE then
      if s.fault then [] else [Chunk(index, true, s.bytes)]
    else
      [Chunk(index, false, s.bytes[..CHUNK_SIZE])]
      + if index == MAX_INDEX then [] else SealPlan(index + 1, Source(s.bytes[CHUNK_SIZE..], s.fault))
  }

  /** The indices count up from the first and never wrap, however long the input is. */
  lemma {:induction false} SealPlanIndices(index: u32, s: Source)
    ensures var plan := SealPlan(index, s);
            index + |plan| <= U32_LIMIT && forall k | 0 <= k < |plan| :: plan[k].index == index + k
    decreases |s.bytes|
  {
    if |s.bytes| > CHUNK_SIZE && index < MAX_INDEX {
      SealPlanIndices(index + 1, Source(s.bytes[CHUNK_SIZE..], s.fault));
    }
  }

  /** Nonces used for one file are pairwise distinct. */
  lemma {:induction false} NoncesDistinct(noncePrefix: NoncePrefix, index: u32, s: Source)
    ensures var plan := SealPlan(index, s);
            forall j, k | 0 <= j < k < |plan| ::
              ChunkNonce(noncePrefix, plan[j].index) != ChunkNonce(noncePrefix, plan[k].index)
  {
    var plan := SealPlan(index, s);
    SealPlanIndices(index, s);
    forall j, k | 0 <= j < k < |plan|
      ensures ChunkNonce(noncePrefix, plan[j].index) != ChunkNonce(noncePrefix, plan[k].index)
    {
      if ChunkNonce(noncePrefix, plan[j].index) == ChunkNonce(noncePrefix, plan[k].index) {
        ChunkNonceInjective(noncePrefix, plan[j].index, noncePrefix, plan[k].index);
      }
    }
  }

  lemma {:induction false} SealPlanOfText(index: u32, s: Source)
    requires !s.fault && |s.bytes| <= (U32_LIMIT - index) * CHUNK_SIZE
    ensures SealPlan(index, s) == ShortPlan(index, s.bytes)
    decreases |s.bytes|
  {
    if |s.bytes| > CHUNK_SIZE {
      SealPlanOfText(index + 1, Source(s.bytes[CHUNK_SIZE..], s.fault));
    }
  }

  lemma {:induction false} FrameOfSeal(c: Context, ch: Chunk)
    requires |ch.plain| <= CHUNK_SIZE && c.AadFits()
    ensures SealChunk(c, ch).Ok?
    ensures var x := SealChunk(c, ch).value;
            Concat([RecordBytes(ch.Header()), x.text, x.tag]) == Frame(c, ch)
  {
    var x := SealChunk(c, ch).value;
    var a, b, t := RecordBytes(ch.Header()), x.text, x.tag;
    assert [a, b, t][1..] == [b, t] && [b, t][1..] == [t] && [t][1..] == [];
    assert Concat([t]) == t + Concat([]) == t;
    assert Concat([a, b, t]) == a + Concat([b, t]);
    assert a + (b + t) == a + b + t;
  }

  lemma {:induction false} SealNeedsAadToFit(c: Context, ch: Chunk)
    requires |ch.plain| <= CHUNK_SIZE && !c.AadFits()
    ensures SealChunk(c, ch) == Err(InvalidInput)
  {
  }

  /**
   * The seal loop on every input. It writes the frames of its plan; it fails for an input that
   * needs more than 2^32 chunks, after the last representable chunk; a device fault fails it
   * before anything of the incomplete chunk is written; an AAD beyond the backend limit fails it
   * before the first record.
   */
  lemma {:induction false} SealLoopExact(c: Context, index: u32, s: Source)
    ensures c.AadFits() ==>
              && Concat(SealFrom(c, index, s).writes) == Frames(c, SealPlan(index, s))
              && SealFrom(c, index, s).outcome
                 == if |s.bytes| > (U32_LIMIT - index) * CHUNK_SIZE then Failed(InvalidInput)
                    else if s.fault then Failed(BackendFailure) else Done
    ensures !c.AadFits() ==>
              SealFrom(c, index, s)
              == Run([], Failed(if |s.bytes| <= CHUNK_SIZE && s.fault then BackendFailure else InvalidInput))
    decreases |s.bytes|
  {
    hide SealChunk, Frame, RecordBytes;
    var final := |s.bytes| <= CHUNK_SIZE;
    var ch := Chunk(index, final, if final then s.bytes else s.bytes[..CHUNK_SIZE]);
    if |s.bytes| <= CHUNK_SIZE && s.fault {
      assert Frames(c, []) == [];
    } else if !c.AadFits() {
      SealNeedsAadToFit(c, ch);
    } else {
      FrameOfSeal(c, ch);
      var sealed := SealChunk(c, ch).value;
      var writes := [RecordBytes(ch.Header()), sealed.text, sealed.tag];
      if final || index == MAX_INDEX {
        assert SealPlan(index, s) == [ch];
        assert Frames(c, [ch]) == Frame(c, ch) + Frames(c, []);
      } else {
        var next := Source(s.bytes[CHUNK_SIZE..], s.fault);
        SealLoopExact(c, index + 1, next);
        ConcatAppend(writes, SealFrom(c, index + 1, next).writes);
        assert SealPlan(index, s)[1..] == SealPlan(index + 1, next);
      }
    }
  }

  // ---------------------------------------------------------------- whole files

  predicate Usable(secret: Secret, aad: Bytes) {
    !EmptyPassword(secret) && HeaderSize(secret.Format()) + RECORD_HEADER_SIZE + |aad| <= INT_MAX
  }

  function SealContext(b: Backend, secret: Secret, aad: Bytes, salt: Salt, noncePrefix: NoncePrefix): Context {
    ContextOf(b, secret, NewHeader(secret, salt, noncePrefix), aad)
  }

  /** The sealed file of `p`. */
  ghost function SealedFile(
      b: Backend, secret: Secret, aad: Bytes, salt: Salt, noncePrefix: NoncePrefix, p: Bytes): Bytes
    requires |p| <= U32_LIMIT * CHUNK_SIZE
  {
    HeaderBytes(secret.Format(), salt, noncePrefix) + ShortPayload(SealContext(b, secret, aad, salt, noncePrefix), p)
  }

  /** The other encoding of `p`, which seal never writes. */
  ghost function LongFile(b: Backend, secret: Secret, aad: Bytes, salt: Salt, noncePrefix: NoncePrefix, p: Bytes): Bytes
    requires HasLongPlan(0, p)
  {
    HeaderBytes(secret.Format(), salt, noncePrefix) + LongPayload(SealContext(b, secret, aad, salt, noncePrefix), p)
  }

  /** Sealing succeeds exactly on readable input of at most 2^32 chunks, and then writes the sealed file. */
  lemma {:induction false} SealExact(
      b: Backend, secret: Secret, aad: Bytes, salt: Salt, noncePrefix: NoncePrefix, s: Source)
    ensures var run := SealRun(b, secret, aad, salt, noncePrefix, s);
            && (run.outcome == Done <==>
                Usable(secret, aad) && !s.fault && |s.bytes| <= U32_LIMIT * CHUNK_SIZE)
            && (run.outcome == Done ==>
                Concat(run.writes) == SealedFile(b, secret, aad, salt, noncePrefix, s.bytes))
  {
    if !EmptyPassword(secret) {
      var c := SealContext(b, secret, aad, salt, noncePrefix);
      SealLoopExact(c, 0, s);
      var body := SealFrom(c, 0, s);
      assert Concat([c.header] + body.writes) == c.header + Concat(body.writes) by {
        assert ([c.header] + body.writes)[1..] == body.writes;
      }
      if body.outcome == Done {
        SealPlanOfText(0, s);
      }
    }
  }

  /**
   * How a seal ends on every input, in plain numbers, and what it has written when it fails early:
   * nothing for an empty password, the header alone for an AAD that is too long.
   */
  lemma {:induction false} SealVerdict(
      b: Backend, secret: Secret, aad: Bytes, salt: Salt, noncePrefix: NoncePrefix, s: Source)
    ensures var run := SealRun(b, secret, aad, salt, noncePrefix, s);
            var aadFits := |aad| <= if secret.MasterKey? then 2147483588 else 2147483574;
            && run.outcome
               == (if secret == Password([]) then Failed(InvalidInput)
                   else if !aadFits then
                     Failed(if |s.bytes| <= 1048576 && s.fault then BackendFailure else InvalidInput)
                   else if |s.bytes| > 0x10_0000_0000_0000 then Failed(InvalidInput)
                   else if s.fault then Failed(BackendFailure) else Done)
            && (secret == Password([]) ==> run.writes == [])
            && (secret != Password([]) && !aadFits ==>
                run.writes == [HeaderBytes(secret.Format(), salt, noncePrefix)])
  {
    hide SealFrom, HeaderBytes;
    if !EmptyPassword(secret) {
      SealLoopExact(SealContext(b, secret, aad, salt, noncePrefix), 0, s);
    }
  }

  /** How an open ends that does not get past the header: every such input, and nothing written. */
  lemma {:induction false} OpenHeaderVerdict(b: Backend, secret: Secret, aad: Bytes, s: Source)
    ensures var run := OpenRun(b, secret, aad, s);
            var n := if secret.MasterKey? then 50 else 64;
            if secret == Password([]) then run == Run([], Failed(InvalidInput))
            else if |s.bytes| < n then run == Run([], Failed(if s.fault then BackendFailure else InvalidPacket))
            else (forall salt: Salt, noncePrefix: NoncePrefix ::
                    HeaderBytes(secret.Format(), salt, noncePrefix) != s.bytes[..n])
                 ==> run == Run([], Failed(InvalidPacket))
  {
    hide OpenFrom, HeaderBytes;
    var f := secret.Format();
    var n := HeaderSize(f);
    if !EmptyPassword(secret) && |s.bytes| >= n {
      match ParseHeaderOf(f, s.bytes[..n])
      case Ok(h) =>
        HeaderCodecExact(f, s.bytes[..n], h);
        assert HeaderBytes(f, h.salt, h.noncePrefix) == s.bytes[..n];
      case Err(_) =>
        var any := FileHeader(s.bytes[..n], seq(SALT_SIZE, i => 0), seq(NONCE_PREFIX_SIZE, i => 0));
        HeaderCodecExact(f, s.bytes[..n], any);
    }
  }

  /**
   * Exact acceptance of whole files: a file opens to `p` if and only if it is a header with some
   * salt and nonce prefix followed by the short or the long encoding of `p` under that header.
   */
  lemma {:induction false} FileAcceptance(b: Backend, secret: Secret, aad: Bytes, file: Bytes, p: Bytes)
    ensures var run := OpenRun(b, secret, aad, Source(file, false));
            (run.outcome == Done && Concat(run.writes) == p) <==>
            exists salt: Salt, noncePrefix: NoncePrefix :: EncodesFile(b, secret, aad, salt, noncePrefix, file, p)
  {
    var run := OpenRun(b, secret, aad, Source(file, false));
    if run.outcome == Done && Concat(run.writes) == p {
      OpenedFileIsEncoded(b, secret, aad, file, p);
    }
    if salt: Salt, noncePrefix: NoncePrefix :| EncodesFile(b, secret, aad, salt, noncePrefix, file, p) {
      OpenEncodedFile(b, secret, aad, salt, noncePrefix, file, p);
    }
  }

  lemma {:induction false} OpenedFileIsEncoded(b: Backend, secret: Secret, aad: Bytes, file: Bytes, p: Bytes)
    requires var run := OpenRun(b, secret, aad, Source(file, false)); run.outcome == Done && Concat(run.writes) == p
    ensures exists salt: Salt, noncePrefix: NoncePrefix :: EncodesFile(b, secret, aad, salt, noncePrefix, file, p)
  {
    hide OpenFrom, ParseHeaderOf, HeaderBytes;
    var f := secret.Format();
    var n := HeaderSize(f);
    var h := ParseHeaderOf(f, file[..n]).value;
    HeaderCodecExact(f, file[..n], h);
    PayloadAcceptance(ContextOf(b, secret, h, aad), Source(file[n..], false), p);
    assert file == file[..n] + file[n..];
    assert EncodesFile(b, secret, aad, h.salt, h.noncePrefix, file, p);
  }

  ghost predicate EncodesFile(
      b: Backend, secret: Secret, aad: Bytes, salt: Salt, noncePrefix: NoncePrefix, file: Bytes, p: Bytes)
  {
    && Usable(secret, aad)
    && ((|p| <= U32_LIMIT * CHUNK_SIZE && file == SealedFile(b, secret, aad, salt, noncePrefix, p))
        || (HasLongPlan(0, p) && file == LongFile(b, secret, aad, salt, noncePrefix, p)))
  }

  /** A file that starts with a well-formed header opens as its payload does under that header. */
  lemma {:induction false} OpenAfterHeader(
      b: Backend, secret: Secret, aad: Bytes, salt: Salt, noncePrefix: NoncePrefix, s: Source, payload: Bytes)
    requires !EmptyPassword(secret)
    requires s.bytes == HeaderBytes(secret.Format(), salt, noncePrefix) + payload
    ensures OpenRun(b, secret, aad, s)
            == OpenFrom(SealContext(b, secret, aad, salt, noncePrefix), 0, Source(payload, s.fault))
  {
    var f := secret.Format();
    var n := HeaderSize(f);
    assert s.bytes[..n] == HeaderBytes(f, salt, noncePrefix) && s.bytes[n..] == payload;
    HeaderCodecExact(f, s.bytes[..n], NewHeader(secret, salt, noncePrefix));
  }

  lemma {:induction false} OpenEncodedFile(
      b: Backend, secret: Secret, aad: Bytes, salt: Salt, noncePrefix: NoncePrefix, file: Bytes, p: Bytes)
    requires EncodesFile(b, secret, aad, salt, noncePrefix, file, p)
    ensures var run := OpenRun(b, secret, aad, Source(file, false));
            run.outcome == Done && Concat(run.writes) == p
  {
    var payload := file[HeaderSize(secret.Format())..];
    assert file == HeaderBytes(secret.Format(), salt, noncePrefix) + payload;
    var c := SealContext(b, secret, aad, salt, noncePrefix);
    OpenAfterHeader(b, secret, aad, salt, noncePrefix, Source(file, false), payload);
    assert Encodes(c, payload, p);
    PayloadAcceptance(c, Source(payload, false), p);
  }

  /** Round trip: what a successful seal wrote opens to exactly what was sealed, for both formats. */
  lemma {:induction false} RoundTrip(
      b: Backend, secret: Secret, aad: Bytes, salt: Salt, noncePrefix: NoncePrefix, s: Source)
    ensures var sealed := SealRun(b, secret, aad, salt, noncePrefix, s);
            sealed.outcome == Done ==>
              var reopened := OpenRun(b, secret, aad, Source(Concat(sealed.writes), false));
              reopened.outcome == Done && Concat(reopened.writes) == s.bytes
  {
    SealExact(b, secret, aad, salt, noncePrefix, s);
    if SealRun(b, secret, aad, salt, noncePrefix, s).outcome == Done {
      OpenEncodedFile(b, secret, aad, salt, noncePrefix,
                      SealedFile(b, secret, aad, salt, noncePrefix, s.bytes), s.bytes);
    }
  }

  /** The size law of a sealed file: header, text, and 25 bytes for each chunk. */
  lemma {:induction false} SealedFileSize(
      b: Backend, secret: Secret, aad: Bytes, salt: Salt, noncePrefix: NoncePrefix, p: Bytes)
    requires |p| <= U32_LIMIT * CHUNK_SIZE
    ensures |SealedFile(b, secret, aad, salt, noncePrefix, p)|
            == HeaderSize(secret.Format()) + |p| + 25 * ChunkCount(|p|)
    ensures HasLongPlan(0, p) && p != [] ==>
              SealedFile(b, secret, aad, salt, noncePrefix, p) != LongFile(b, secret, aad, salt, noncePrefix, p)
  {
    EncodingSizes(SealContext(b, secret, aad, salt, noncePrefix), p);
  }

  /**
   * "Accepted exactly if sealed" is false: for every text that fills its chunks, below the maximum,
   * the long file opens to it, and no seal of any input, with any random values, writes that file.
   */
  lemma {:induction false} LongFileOpensButIsNeverSealed(
      b: Backend, secret: Secret, aad: Bytes, salt: Salt, noncePrefix: NoncePrefix, p: Bytes,
      otherSalt: Salt, otherPrefix: NoncePrefix, s: Source)
    requires Usable(secret, aad) && HasLongPlan(0, p) && p != []
    ensures var file := LongFile(b, secret, aad, salt, noncePrefix, p);
            var run := OpenRun(b, secret, aad, Source(file, false));
            var sealed := SealRun(b, secret, aad, otherSalt, otherPrefix, s);
            && run.outcome == Done && Concat(run.writes) == p
            && (sealed.outcome == Done ==> Concat(sealed.writes) != file)
  {
    hide OpenRun, SealRun;
    var file := LongFile(b, secret, aad, salt, noncePrefix, p);
    OpenEncodedFile(b, secret, aad, salt, noncePrefix, file, p);
    SealExact(b, secret, aad, otherSalt, otherPrefix, s);
    var sealed := SealRun(b, secret, aad, otherSalt, otherPrefix, s);
    if sealed.outcome == Done && Concat(sealed.writes) == file {
      RoundTrip(b, secret, aad, otherSalt, otherPrefix, s);
      EncodingSizes(SealContext(b, secret, aad, salt, noncePrefix), p);
      EncodingSizes(SealContext(b, secret, aad, otherSalt, otherPrefix), p);
    }
  }

  ghost predicate SomeSealWrites(
      b: Backend, secret: Secret, aad: Bytes, salt: Salt, noncePrefix: NoncePrefix, s: Source, file: Bytes) {
    var run := SealRun(b, secret, aad, salt, noncePrefix, s);
    run.outcome == Done && Concat(run.writes) == file
  }

  /** Which accepted files are sealed ones: exactly those as long as the size law says for the text they open to. */
  lemma {:induction false} AcceptedIsSealedBySize(b: Backend, secret: Secret, aad: Bytes, file: Bytes)
    requires OpenRun(b, secret, aad, Source(file, false)).outcome == Done
    ensures var p := Concat(OpenRun(b, secret, aad, Source(file, false)).writes);
            (exists salt: Salt, noncePrefix: NoncePrefix, s: Source ::
               SomeSealWrites(b, secret, aad, salt, noncePrefix, s, file))
            <==> |file| == HeaderSize(secret.Format()) + |p| + 25 * ChunkCount(|p|)
  {
    hide OpenRun, SealRun, HeaderBytes;
    var p := Concat(OpenRun(b, secret, aad, Source(file, false)).writes);
    FileAcceptance(b, secret, aad, file, p);
    var salt: Salt, noncePrefix: NoncePrefix :| EncodesFile(b, secret, aad, salt, noncePrefix, file, p);
    EncodingSizes(SealContext(b, secret, aad, salt, noncePrefix), p);
    SealExact(b, secret, aad, salt, noncePrefix, Source(p, false));
    if |file| == HeaderSize(secret.Format()) + |p| + 25 * ChunkCount(|p|) {
      assert SomeSealWrites(b, secret, aad, salt, noncePrefix, Source(p, false), file);
    }
    if t: Salt, q: NoncePrefix, s: Source :| SomeSealWrites(b, secret, aad, t, q, s, file) {
      SealExact(b, secret, aad, t, q, s);
      RoundTrip(b, secret, aad, t, q, s);
      SealedFileSize(b, secret, aad, t, q, p);
    }
  }

  const FULL_FRAME: nat := CHUNK_SIZE + 25

  lemma {:induction false} Remainder(full: nat, rest: nat)
    requires rest < FULL_FRAME
    ensures (full * FULL_FRAME + rest) % FULL_FRAME == rest
  {
  }

  /** The size of a short encoding: one empty chunk, or a last chunk that is not empty. */
  lemma {:induction false} ShortSizes(n: nat)
    ensures var size := n + 25 * ChunkCount(n);
            size == 25 || size % FULL_FRAME != 25
  {
    var full, rest := n / CHUNK_SIZE, n % CHUNK_SIZE;
    if rest == 0 {
      Remainder(full, 0);
    } else {
      Remainder(full, rest + 25);
    }
  }

  /** The size of a long encoding: full chunks, and an empty one. */
  lemma {:induction false} LongSizes(n: nat)
    requires n > 0 && n % CHUNK_SIZE == 0
    ensures var size := n + 25 * ChunkCount(n) + 25;
            size != 25 && size % FULL_FRAME == 25
  {
    Remainder(n / CHUNK_SIZE, 25);
  }

  /**
   * Which accepted files are sealed ones, told by the length of the file alone: all but those
   * whose records are one or more full chunks and then an empty one.
   */
  lemma {:induction false} AcceptedIsSealedByLength(b: Backend, secret: Secret, aad: Bytes, file: Bytes)
    requires OpenRun(b, secret, aad, Source(file, false)).outcome == Done
    ensures var n := |file| - HeaderSize(secret.Format());
            (exists salt: Salt, noncePrefix: NoncePrefix, s: Source ::
               SomeSealWrites(b, secret, aad, salt, noncePrefix, s, file))
            <==> n == 25 || n % FULL_FRAME != 25
  {
    hide OpenRun, SealRun, HeaderBytes, ChunkCount;
    var p := Concat(OpenRun(b, secret, aad, Source(file, false)).writes);
    AcceptedIsSealedBySize(b, secret, aad, file);
    FileAcceptance(b, secret, aad, file, p);
    var salt: Salt, noncePrefix: NoncePrefix :| EncodesFile(b, secret, aad, salt, noncePrefix, file, p);
    EncodingSizes(SealContext(b, secret, aad, salt, noncePrefix), p);
    ShortSizes(|p|);
    if file != SealedFile(b, secret, aad, salt, noncePrefix, p) {
      LongSizes(|p|);
    }
  }

  /**
   * Sealing is not possible under every AAD: one of the largest size a single backend call takes
   * is refused, because the header and the record header are authenticated with it.
   */
  lemma {:induction false} LargestAadIsRefused(
      b: Backend, secret: Secret, salt: Salt, noncePrefix: NoncePrefix, p: Bytes)
    ensures var aad := seq(INT_MAX, i => 0);
            SealRun(b, secret, aad, salt, noncePrefix, Source(p, false)).outcome == Failed(InvalidInput)
  {
    hide SealFrom;
    var aad: Bytes := seq(INT_MAX, i => 0);
    SealLoopExact(SealContext(b, secret, aad, salt, noncePrefix), 0, Source(p, false));
  }
}
