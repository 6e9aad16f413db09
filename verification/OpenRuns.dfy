/** What rejecting open runs write, and how they are decided: truncation, extension and tampering. */
module OpenRuns {
  import opened ByteStrings
  import opened Gcm
  import opened FileCrypto
  import opened Streams
  import opened FileFormat
  import opened Records
  import opened Acceptance
  import opened Sealing

  // ---------------------------------------------------------------- the deciding record

  /**
   * The input splits into the frames of full non-final chunks, whose plaintexts are `writes`,
   * and a remainder that the next iteration rejects with `e`; or the chunks use up all indices.
   */
  ghost predicate Decides(
      c: Context, index: u32, s: Source, writes: seq<Bytes>, e: ErrorCode, plan: Plan, rest: Bytes) {
    && FullFrom(index, plan) && AllFit(plan) && index + |plan| <= U32_LIMIT
    && (plan != [] ==> c.AadFits())
    && s.bytes == Frames(c, plan) + rest && writes == Plains(plan)
    && if index + |plan| == U32_LIMIT then e == InvalidPacket
       else ReadRecord(c, index + |plan|, Source(rest, s.fault)) == Err(e)
  }

  /**
   * A run fails with `e` after writing `writes` exactly when some record decides it so. In
   * particular everything written before a failure belongs to full non-final chunks.
   */
  lemma {:induction false} DecidingRecord(c: Context, index: u32, s: Source, writes: seq<Bytes>, e: ErrorCode)
    ensures OpenFrom(c, index, s) == Run(writes, Failed(e)) <==>
            exists plan, rest :: Decides(c, index, s, writes, e, plan, rest)
  {
    if OpenFrom(c, index, s) == Run(writes, Failed(e)) {
      var plan, rest := FindDecidingRecord(c, index, s, e);
    }
    if plan, rest :| Decides(c, index, s, writes, e, plan, rest) {
      DecidingRecordDecides(c, index, s, writes, e, plan, rest);
    }
  }

  lemma {:induction false} FindDecidingRecord(c: Context, index: u32, s: Source, e: ErrorCode)
    returns (plan: Plan, rest: Bytes)
    requires OpenFrom(c, index, s).outcome == Failed(e)
    ensures Decides(c, index, s, OpenFrom(c, index, s).writes, e, plan, rest)
    decreases |s.bytes|
  {
    hide ReadRecord;
    match ReadRecord(c, index, s)
    case Err(_) =>
      plan, rest := [], s.bytes;
      assert s.bytes == Frames(c, []) + s.bytes && Source(s.bytes, s.fault) == s;
      assert Plains([]) == [];
    case Ok(p) =>
      ReadRecordExact(c, index, s, p);
      if index < MAX_INDEX {
        var next := Source(p.rest, s.fault);
        plan, rest := FindDecidingRecord(c, index + 1, next, e);
        DecidesStep(c, index, s, p.chunk, next, OpenFrom(c, index + 1, next).writes, e, plan, rest);
        plan := [p.chunk] + plan;
      } else {
        plan, rest := [p.chunk], p.rest;
        PlainsStep(p.chunk, []);
        assert Frames(c, plan) == Frame(c, p.chunk) + Frames(c, []);
        assert FullFrom(index, plan);
      }
  }

  lemma {:induction false} DecidesStep(
      c: Context, index: u32, s: Source, ch: Chunk, next: Source, writes: seq<Bytes>, e: ErrorCode,
      plan: Plan, rest: Bytes)
    requires index < MAX_INDEX && ch.index == index && !ch.final && ch.Fits() && c.AadFits()
    requires s == Source(Frame(c, ch) + next.bytes, next.fault)
    requires Decides(c, index + 1, next, writes, e, plan, rest)
    ensures Decides(c, index, s, [ch.plain] + writes, e, [ch] + plan, rest)
  {
    hide ReadRecord, Frame;
    PlainsStep(ch, plan);
    assert ([ch] + plan)[1..] == plan;
    assert Frames(c, [ch] + plan) + rest == Frame(c, ch) + (Frames(c, plan) + rest);
    assert FullFrom(index, [ch] + plan);
  }

  lemma {:induction false} DecidingRecordDecides(
      c: Context, index: u32, s: Source, writes: seq<Bytes>, e: ErrorCode, plan: Plan, rest: Bytes)
    requires Decides(c, index, s, writes, e, plan, rest)
    ensures OpenFrom(c, index, s) == Run(writes, Failed(e))
    decreases |plan|
  {
    hide ReadRecord;
    if plan == [] {
      assert s.bytes == rest;
      assert writes == [];
    } else {
      var ch, tail := plan[0], plan[1..];
      var after := Frames(c, tail) + rest;
      assert s.bytes == Frame(c, ch) + after;
      var sealed := SealChunk(c, ch).value;
      ReadRecordExact(c, index, s, Piece(ch, sealed.text, sealed.tag, after));
      assert plan == [ch] + tail;
      PlainsStep(ch, tail);
      if index < MAX_INDEX {
        DecidingRecordDecides(c, index + 1, Source(after, s.fault), Plains(tail), e, tail, rest);
      } else {
        assert tail == [];
      }
    }
  }

  // ---------------------------------------------------------------- truncation and extension

  /** Every strict prefix of an accepted record stream is malformed; only leading chunks of the text were written. */
  lemma {:induction false} TruncatedPayload(c: Context, index: u32, s: Bytes, k: nat)
    requires OpenFrom(c, index, Source(s, false)).outcome == Done && k < |s|
    ensures var run := OpenFrom(c, index, Source(s[..k], false));
            && run.outcome == Failed(InvalidPacket)
            && run.writes <= OpenFrom(c, index, Source(s, false)).writes
    decreases |s|
  {
    hide ReadRecord;
    var p := ReadRecord(c, index, Source(s, false)).value;
    ReadRecordExact(c, index, Source(s, false), p);
    var n := |Frame(c, p.chunk)|;
    if k < n {
      CutRecord(c, index, s, k, p);
    } else {
      var cut := p.rest[..k - n];
      assert s[..k] == Frame(c, p.chunk) + cut;
      ReadRecordExact(c, index, Source(s[..k], false), p.(rest := cut));
      TruncatedPayload(c, index + 1, p.rest, k - n);
    }
  }

  /** A record cut short is malformed, never unauthentic. */
  lemma {:induction false} CutRecord(c: Context, index: u32, s: Bytes, k: nat, p: Piece)
    requires ReadRecord(c, index, Source(s, false)) == Ok(p) && k < |Frame(c, p.chunk)| <= |s|
    ensures ReadRecord(c, index, Source(s[..k], false)) == Err(InvalidPacket)
  {
    ReadRecordExact(c, index, Source(s, false), p);
    var n := RECORD_HEADER_SIZE;
    if k >= n {
      assert s[..k][..n] == RecordBytes(p.chunk.Header());
      RecordCodecExact(s[..k][..n], p.chunk.Header());
    }
  }

  /** A final record with anything after it is malformed. */
  lemma {:induction false} ExtendedRecord(c: Context, index: u32, s: Bytes, x: Bytes, p: Piece)
    requires ReadRecord(c, index, Source(s, false)) == Ok(p) && p.chunk.final && x != []
    ensures ReadRecord(c, index, Source(s + x, false)) == Err(InvalidPacket)
  {
    ReadRecordExact(c, index, Source(s, false), p);
    var n := RECORD_HEADER_SIZE;
    assert (s + x)[..n] == RecordBytes(p.chunk.Header());
    RecordCodecExact((s + x)[..n], p.chunk.Header());
  }

  /** Every strict extension of an accepted record stream is malformed; all but the last chunk was written. */
  lemma {:induction false} ExtendedPayload(c: Context, index: u32, s: Bytes, x: Bytes)
    requires OpenFrom(c, index, Source(s, false)).outcome == Done && x != []
    ensures var run := OpenFrom(c, index, Source(s + x, false));
            var accepted := OpenFrom(c, index, Source(s, false)).writes;
            && run.outcome == Failed(InvalidPacket)
            && accepted != [] && run.writes == accepted[..|accepted| - 1]
    decreases |s|
  {
    hide ReadRecord;
    var p := ReadRecord(c, index, Source(s, false)).value;
    ReadRecordExact(c, index, Source(s, false), p);
    if p.chunk.final {
      ExtendedRecord(c, index, s, x, p);
    } else {
      assert s + x == Frame(c, p.chunk) + (p.rest + x);
      ReadRecordExact(c, index, Source(s + x, false), p.(rest := p.rest + x));
      ExtendedPayload(c, index + 1, p.rest, x);
      var rest := OpenFrom(c, index + 1, Source(p.rest, false)).writes;
      assert ([p.chunk.plain] + rest)[..|rest|] == [p.chunk.plain] + rest[..|rest| - 1];
    }
  }

  lemma {:induction false} ConcatPrefix(a: seq<Bytes>, b: seq<Bytes>)
    requires a <= b
    ensures Concat(a) <= Concat(b)
  {
    ConcatAppend(a, b[|a|..]);
    assert b == a + b[|a|..];
  }

  /**
   * Prefix-freeness, with no assumption on the cipher: under the same secret and AAD every strict
   * prefix and every strict extension of an accepted file is rejected as malformed, and what was
   * written before is a prefix of the accepted text.
   */
  lemma {:induction false} PrefixFree(b: Backend, secret: Secret, aad: Bytes, file: Bytes, other: Bytes)
    requires OpenRun(b, secret, aad, Source(file, false)).outcome == Done
    requires other != file && (other <= file || file <= other)
    ensures var run := OpenRun(b, secret, aad, Source(other, false));
            && run.outcome == Failed(InvalidPacket)
            && Concat(run.writes) <= Concat(OpenRun(b, secret, aad, Source(file, false)).writes)
  {
    hide ReadRecord, OpenFrom;
    var f := secret.Format();
    var n := HeaderSize(f);
    if |other| >= n {
      assert other[..n] == file[..n];
      var h := ParseHeaderOf(f, file[..n]).value;
      PrefixFreePayload(ContextOf(b, secret, h, aad), file[n..], other[n..]);
    }
  }

  lemma {:induction false} PrefixFreePayload(c: Context, s: Bytes, other: Bytes)
    requires OpenFrom(c, 0, Source(s, false)).outcome == Done
    requires other != s && (other <= s || s <= other)
    ensures var run := OpenFrom(c, 0, Source(other, false));
            && run.outcome == Failed(InvalidPacket)
            && Concat(run.writes) <= Concat(OpenFrom(c, 0, Source(s, false)).writes)
  {
    hide ReadRecord, OpenFrom;
    var accepted := OpenFrom(c, 0, Source(s, false)).writes;
    if |other| < |s| {
      assert other == s[..|other|];
      TruncatedPayload(c, 0, s, |other|);
      ConcatPrefix(OpenFrom(c, 0, Source(other, false)).writes, accepted);
    } else {
      var x := other[|s|..];
      assert other == s + x;
      ExtendedPayload(c, 0, s, x);
      ConcatPrefix(accepted[..|accepted| - 1], accepted);
    }
  }

  // ---------------------------------------------------------------- tampering

  /** One authentication: the key, what a tag is computed over, and the tag. */
  datatype Auth = Auth(key: Key, nonce: Bytes, aad: Bytes, text: Bytes, tag: Tag)

  function AuthOfPiece(c: Context, p: Piece): Auth
    requires |p.chunk.plain| <= CHUNK_SIZE
  {
    Auth(c.key, ChunkNonce(c.noncePrefix, p.chunk.index), ChunkAad(c.header, p.chunk.Header(), c.aad), p.text, p.tag)
  }

  /** Everything the open run verifies successfully, in order. */
  function Verified(c: Context, index: u32, s: Source): seq<Auth>
    decreases |s.bytes|
  {
    match ReadRecord(c, index, s)
    case Err(_) => []
    case Ok(p) =>
      var head := AuthOfPiece(c, p);
      if p.chunk.final || index == MAX_INDEX then [head]
      else [head] + Verified(c, index + 1, Source(p.rest, s.fault))
  }

  /** Everything seal emits for a plan, in order. */
  function Emitted(c: Context, plan: Plan): seq<Auth>
    requires AllFit(plan) && c.AadFits()
  {
    if plan == [] then []
    else
      var x := SealChunk(c, plan[0]).value;
      [AuthOfPiece(c, Piece(plan[0], x.text, x.tag, []))] + Emitted(c, plan[1..])
  }

  /** No forgery on this input: whatever verifies was emitted. */
  ghost predicate NoForgery(verified: seq<Auth>, emitted: seq<Auth>) {
    forall t | t in verified :: t in emitted
  }

  lemma {:induction false} EmittedNonces(c: Context, index: nat, plan: Plan, t: Auth)
    requires WholeFrom(index, plan) && AllFit(plan) && c.AadFits() && t in Emitted(c, plan)
    ensures exists k: u32 :: index <= k && t.nonce == ChunkNonce(c.noncePrefix, k)
    decreases |plan|
  {
    var x := SealChunk(c, plan[0]).value;
    if t == AuthOfPiece(c, Piece(plan[0], x.text, x.tag, [])) {
      assert t.nonce == ChunkNonce(c.noncePrefix, plan[0].index);
    } else {
      assert t in Emitted(c, plan[1..]);
      EmittedNonces(c, index + 1, plan[1..], t);
    }
  }

  lemma {:induction false} VerifiedNonces(c: Context, index: u32, s: Source, t: Auth)
    requires t in Verified(c, index, s)
    ensures exists k: u32 :: index <= k && t.nonce == ChunkNonce(c.noncePrefix, k)
    decreases |s.bytes|
  {
    hide ReadRecord;
    var p := ReadRecord(c, index, s).value;
    ReadRecordExact(c, index, s, p);
    if t == AuthOfPiece(c, p) {
      assert t.nonce == ChunkNonce(c.noncePrefix, index);
    } else {
      VerifiedNonces(c, index + 1, Source(p.rest, s.fault), t);
    }
  }

  /** Without forgery, a run in the sealing context follows the plan that was sealed. */
  lemma {:induction false} TamperedPayload(c: Context, index: u32, s: Source, plan: Plan)
    requires WholeFrom(index, plan) && AllFit(plan) && c.AadFits()
    requires NoForgery(Verified(c, index, s), Emitted(c, plan))
    ensures var run := OpenFrom(c, index, s);
            && run.writes <= Plains(plan)
            && (run.outcome == Done ==> s.bytes == Frames(c, plan) && run.writes == Plains(plan))
    decreases |s.bytes|
  {
    hide ReadRecord;
    match ReadRecord(c, index, s)
    case Err(_) =>
    case Ok(p) =>
      FirstVerifiedIsFirstEmitted(c, index, s, plan, p);
      ReadRecordExact(c, index, s, p);
      var ch, rest := plan[0], plan[1..];
      assert plan == [ch] + rest;
      PlainsStep(ch, rest);
      if ch.final {
        assert Plains(plan) == [ch.plain];
        assert Frames(c, plan) == Frame(c, ch) + Frames(c, []);
      } else if index < MAX_INDEX {
        RestOfVerifiedIsEmitted(c, index, s, plan, p);
        TamperedPayload(c, index + 1, Source(p.rest, s.fault), rest);
      }
  }

  lemma {:induction false} FirstVerifiedIsFirstEmitted(c: Context, index: u32, s: Source, plan: Plan, p: Piece)
    requires WholeFrom(index, plan) && AllFit(plan) && c.AadFits() && ReadRecord(c, index, s) == Ok(p)
    requires NoForgery(Verified(c, index, s), Emitted(c, plan))
    ensures p.chunk == plan[0]
  {
    hide ReadRecord;
    ReadRecordExact(c, index, s, p);
    var t := AuthOfPiece(c, p);
    assert Verified(c, index, s)[0] == t;
    var x := SealChunk(c, plan[0]).value;
    var first := AuthOfPiece(c, Piece(plan[0], x.text, x.tag, []));
    assert Emitted(c, plan) == [first] + Emitted(c, plan[1..]);
    if t != first {
      assert t in Emitted(c, plan) && t in Emitted(c, plan[1..]);
      EmittedNonces(c, index + 1, plan[1..], t);
      var k: u32 :| index + 1 <= k && t.nonce == ChunkNonce(c.noncePrefix, k);
      ChunkNonceInjective(c.noncePrefix, index, c.noncePrefix, k);
    }
    SameAuthSameChunk(c, index, s, p, plan[0]);
  }

  lemma {:induction false} SameAuthSameChunk(c: Context, index: u32, s: Source, p: Piece, ch: Chunk)
    requires ReadRecord(c, index, s) == Ok(p) && ch.Fits() && ch.index == index && c.AadFits()
    requires AuthOfPiece(c, p) == var x := SealChunk(c, ch).value; AuthOfPiece(c, Piece(ch, x.text, x.tag, []))
    ensures p.chunk == ch
  {
    ReadRecordExact(c, index, s, p);
    var n := |c.header|;
    var a, b := ChunkAad(c.header, p.chunk.Header(), c.aad), ChunkAad(c.header, ch.Header(), c.aad);
    assert RecordBytes(p.chunk.Header()) == a[n..n + 9] && RecordBytes(ch.Header()) == b[n..n + 9];
    RecordBytesInjective(p.chunk.Header(), ch.Header());
    var nonce := ChunkNonce(c.noncePrefix, index);
    MaskTwice(c.cipher, c.key, nonce, 0, p.chunk.plain);
    MaskTwice(c.cipher, c.key, nonce, 0, ch.plain);
  }

  lemma {:induction false} RestOfVerifiedIsEmitted(c: Context, index: u32, s: Source, plan: Plan, p: Piece)
    requires WholeFrom(index, plan) && AllFit(plan) && c.AadFits() && ReadRecord(c, index, s) == Ok(p)
    requires NoForgery(Verified(c, index, s), Emitted(c, plan))
    requires p.chunk == plan[0] && !plan[0].final && index < MAX_INDEX
    ensures NoForgery(Verified(c, index + 1, Source(p.rest, s.fault)), Emitted(c, plan[1..]))
  {
    hide ReadRecord;
    var next := Source(p.rest, s.fault);
    var x := SealChunk(c, plan[0]).value;
    var first := AuthOfPiece(c, Piece(plan[0], x.text, x.tag, []));
    forall t | t in Verified(c, index + 1, next)
      ensures t in Emitted(c, plan[1..])
    {
      assert t in Verified(c, index, s);
      VerifiedNonces(c, index + 1, next, t);
      var k: u32 :| index + 1 <= k && t.nonce == ChunkNonce(c.noncePrefix, k);
      if t == first {
        ChunkNonceInjective(c.noncePrefix, index, c.noncePrefix, k);
      }
    }
  }

  /** Everything an open run of a whole file verifies. */
  function VerifiedInFile(b: Backend, secret: Secret, aad: Bytes, s: Source): seq<Auth> {
    var n := HeaderSize(secret.Format());
    if EmptyPassword(secret) || |s.bytes| < n then []
    else match ParseHeaderOf(secret.Format(), s.bytes[..n])
      case Err(_) => []
      case Ok(h) => Verified(ContextOf(b, secret, h, aad), 0, Source(s.bytes[n..], s.fault))
  }

  /** Two secrets of one format that derive the same file key from a salt. */
  predicate SameKey(b: Backend, secret: Secret, other: Secret, salt: Salt) {
    secret.Format() == other.Format() && DeriveKey(b.kdf, secret, salt) == DeriveKey(b.kdf, other, salt)
  }

  /** Everything seal emits for a file. */
  function EmittedInFile(
      b: Backend, secret: Secret, aad: Bytes, salt: Salt, noncePrefix: NoncePrefix, p: Bytes): seq<Auth>
    requires Usable(secret, aad) && |p| <= U32_LIMIT * CHUNK_SIZE
  {
    ShortPlanIsWhole(0, p);
    WholeFits(0, ShortPlan(0, p));
    Emitted(SealContext(b, secret, aad, salt, noncePrefix), ShortPlan(0, p))
  }

  /** Opening what was sealed verifies exactly what was emitted, in order. */
  lemma {:induction false} SealedVerifies(c: Context, index: u32, plan: Plan)
    requires WholeFrom(index, plan) && AllFit(plan) && c.AadFits()
    ensures Verified(c, index, Source(Frames(c, plan), false)) == Emitted(c, plan)
    decreases |plan|
  {
    hide ReadRecord;
    var ch, rest := plan[0], Frames(c, plan[1..]);
    var x := SealChunk(c, ch).value;
    ReadRecordExact(c, index, Source(Frames(c, plan), false), Piece(ch, x.text, x.tag, rest));
    if !ch.final {
      assert plan[1..][0].index == index + 1;
      SealedVerifies(c, index + 1, plan[1..]);
    }
  }

  /** No forgery is needed for success: the sealed file itself meets the hypothesis of the next theorem. */
  lemma {:induction false} SealedFileHasNoForgery(
      b: Backend, secret: Secret, aad: Bytes, salt: Salt, noncePrefix: NoncePrefix, p: Bytes)
    requires Usable(secret, aad) && |p| <= U32_LIMIT * CHUNK_SIZE
    ensures var file := SealedFile(b, secret, aad, salt, noncePrefix, p);
            var emitted := EmittedInFile(b, secret, aad, salt, noncePrefix, p);
            && VerifiedInFile(b, secret, aad, Source(file, false)) == emitted && emitted != []
            && NoForgery(VerifiedInFile(b, secret, aad, Source(file, false)), emitted)
  {
    hide ReadRecord, ParseHeaderOf, HeaderBytes, Verified, Frames;
    var n := HeaderSize(secret.Format());
    var c := SealContext(b, secret, aad, salt, noncePrefix);
    var file := SealedFile(b, secret, aad, salt, noncePrefix, p);
    assert file[..n] == HeaderBytes(secret.Format(), salt, noncePrefix) && file[n..] == ShortPayload(c, p);
    HeaderCodecExact(secret.Format(), file[..n], NewHeader(secret, salt, noncePrefix));
    ShortPlanIsWhole(0, p);
    WholeFits(0, ShortPlan(0, p));
    SealedVerifies(c, 0, ShortPlan(0, p));
  }

  /**
   * Tampering over whole runs. `p` was sealed; any input at all is opened, with any secret of
   * either format and any caller AAD. If every record of that input that verifies is one that
   * seal emitted, then only a prefix of `p` is written, and the run succeeds only for the sealed
   * file itself. Anything is written only under the sealed file's header, a secret of its format
   * that derives the same file key, and the AAD it was sealed with.
   */
  lemma {:induction false} Tampering(
      b: Backend, sealer: Secret, aad: Bytes, salt: Salt, noncePrefix: NoncePrefix, p: Bytes,
      opener: Secret, otherAad: Bytes, input: Source)
    requires Usable(sealer, aad) && |p| <= U32_LIMIT * CHUNK_SIZE
    requires NoForgery(VerifiedInFile(b, opener, otherAad, input),
                       EmittedInFile(b, sealer, aad, salt, noncePrefix, p))
    ensures var run := OpenRun(b, opener, otherAad, input);
            && Concat(run.writes) <= p
            && (run.writes != [] ==>
                && HeaderBytes(sealer.Format(), salt, noncePrefix) <= input.bytes
                && SameKey(b, opener, sealer, salt) && otherAad == aad)
            && (run.outcome == Done ==>
                && run.writes != [] && Concat(run.writes) == p
                && input.bytes == SealedFile(b, sealer, aad, salt, noncePrefix, p))
  {
    hide ReadRecord, OpenFrom, Verified, Emitted, ParseHeaderOf, HeaderBytes;
    var n := HeaderSize(opener.Format());
    if !EmptyPassword(opener) && |input.bytes| >= n && ParseHeaderOf(opener.Format(), input.bytes[..n]).Ok? {
      var h := ParseHeaderOf(opener.Format(), input.bytes[..n]).value;
      HeaderCodecExact(opener.Format(), input.bytes[..n], h);
      var payload := Source(input.bytes[n..], input.fault);
      TamperedAfterHeader(b, sealer, aad, salt, noncePrefix, p, opener, otherAad, h, payload);
      assert input.bytes == h.serialized + input.bytes[n..];
    }
  }

  /**
   * The same at every point of the run, on any sink: cutting a run short is running it on a sink
   * that takes fewer bytes, so whatever has reached the output is a prefix of `p`, and under
   * another key or another AAD nothing has.
   */
  lemma {:induction false} TamperedOutput(
      b: Backend, sealer: Secret, aad: Bytes, salt: Salt, noncePrefix: NoncePrefix, p: Bytes,
      opener: Secret, otherAad: Bytes, input: Source, s: Sink)
    requires Usable(sealer, aad) && |p| <= U32_LIMIT * CHUNK_SIZE
    requires NoForgery(VerifiedInFile(b, opener, otherAad, input),
                       EmittedInFile(b, sealer, aad, salt, noncePrefix, p))
    ensures var end := Execute(s, OpenRun(b, opener, otherAad, input));
            && s.bytes <= end.sink.bytes <= s.bytes + p
            && (end.sink.bytes != s.bytes ==> SameKey(b, opener, sealer, salt) && otherAad == aad)
            && (end.outcome == Done ==>
                && input.bytes == SealedFile(b, sealer, aad, salt, noncePrefix, p)
                && SameKey(b, opener, sealer, salt) && otherAad == aad && end.sink.bytes == s.bytes + p)
  {
    hide OpenRun, Execute, NoForgery;
    Tampering(b, sealer, aad, salt, noncePrefix, p, opener, otherAad, input);
    ExecuteAddsPrefix(s, OpenRun(b, opener, otherAad, input));
  }

  lemma {:induction false} TamperedAfterHeader(
      b: Backend, sealer: Secret, aad: Bytes, salt: Salt, noncePrefix: NoncePrefix, p: Bytes,
      opener: Secret, otherAad: Bytes, h: FileHeader, s: Source)
    requires Usable(sealer, aad) && |p| <= U32_LIMIT * CHUNK_SIZE
    requires h == FileHeader(HeaderBytes(opener.Format(), h.salt, h.noncePrefix), h.salt, h.noncePrefix)
    requires NoForgery(Verified(ContextOf(b, opener, h, otherAad), 0, s),
                       EmittedInFile(b, sealer, aad, salt, noncePrefix, p))
    ensures var run := OpenFrom(ContextOf(b, opener, h, otherAad), 0, s);
            && Concat(run.writes) <= p
            && (run.writes != [] ==>
                && h == NewHeader(sealer, salt, noncePrefix) && SameKey(b, opener, sealer, salt) && otherAad == aad
                && ContextOf(b, opener, h, otherAad) == SealContext(b, sealer, aad, salt, noncePrefix))
            && (run.outcome == Done ==>
                && run.writes != [] && Concat(run.writes) == p
                && s.bytes == ShortPayload(ContextOf(b, opener, h, otherAad), p))
  {
    hide ReadRecord, Emitted, ShortPlan;
    var d := ContextOf(b, opener, h, otherAad);
    match ReadRecord(d, 0, s)
    case Err(_) =>
    case Ok(first) =>
      ReadRecordExact(d, 0, s, first);
      ShortPlanIsWhole(0, p);
      var plan := ShortPlan(0, p);
      WholeFits(0, plan);
      var t := AuthOfPiece(d, first);
      assert Verified(d, 0, s)[0] == t;
      SameContext(b, sealer, aad, salt, noncePrefix, plan, opener, otherAad, h, t, first);
      TamperedPayload(d, 0, s, plan);
      ConcatPrefix(OpenFrom(d, 0, s).writes, Plains(plan));
  }

  /** One emitted tuple that verifies under a header pins down the header, the file key and the caller's AAD. */
  lemma {:induction false} SameContext(
      b: Backend, sealer: Secret, aad: Bytes, salt: Salt, noncePrefix: NoncePrefix, plan: Plan,
      opener: Secret, otherAad: Bytes, h: FileHeader, t: Auth, p: Piece)
    requires Usable(sealer, aad) && AllFit(plan) && |p.chunk.plain| <= CHUNK_SIZE
    requires h == FileHeader(HeaderBytes(opener.Format(), h.salt, h.noncePrefix), h.salt, h.noncePrefix)
    requires t == AuthOfPiece(ContextOf(b, opener, h, otherAad), p)
    requires t in Emitted(SealContext(b, sealer, aad, salt, noncePrefix), plan)
    ensures SameKey(b, opener, sealer, salt) && otherAad == aad && h == NewHeader(sealer, salt, noncePrefix)
  {
    var c := SealContext(b, sealer, aad, salt, noncePrefix);
    var q := EmittedFrom(c, plan, t);
    ChunkAadInjective(
      opener.Format(), h.salt, h.noncePrefix, p.chunk.Header(), otherAad,
      sealer.Format(), salt, noncePrefix, q.Header(), aad);
  }

  lemma {:induction false} EmittedFrom(c: Context, plan: Plan, t: Auth) returns (ch: Chunk)
    requires AllFit(plan) && c.AadFits() && t in Emitted(c, plan)
    ensures t.key == c.key && |ch.plain| <= CHUNK_SIZE && t.aad == ChunkAad(c.header, ch.Header(), c.aad)
    decreases |plan|
  {
    var x := SealChunk(c, plan[0]).value;
    if t == AuthOfPiece(c, Piece(plan[0], x.text, x.tag, [])) {
      ch := plan[0];
    } else {
      ch := EmittedFrom(c, plan[1..], t);
    }
  }
}
