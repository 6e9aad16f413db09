/**
 * Which files open accepts, and what seal writes: both are described by plans, sequences of
 * chunks that cut a text into records.
 */
module Acceptance {
  import opened ByteStrings
  import opened Gcm
  import opened FileCrypto
  import opened Streams
  import opened FileFormat
  import opened Records

  type Plan = seq<Chunk>

  // ---------------------------------------------------------------- plans

  /** Consecutive full non-final chunks from `index` on. */
  ghost predicate FullFrom(index: nat, plan: Plan)
    decreases |plan|
  {
    plan != [] ==>
      plan[0].index == index && !plan[0].final && plan[0].Fits() && FullFrom(index + 1, plan[1..])
  }

  /** A complete plan: consecutive indices, full non-final chunks, exactly the last chunk final. */
  ghost predicate WholeFrom(index: nat, plan: Plan)
    decreases |plan|
  {
    && plan != [] && plan[0].index == index && plan[0].Fits()
    && if plan[0].final then |plan| == 1 else WholeFrom(index + 1, plan[1..])
  }

  ghost predicate AllFit(plan: Plan) {
    forall k | 0 <= k < |plan| :: |plan[k].plain| <= CHUNK_SIZE
  }

  function Plains(plan: Plan): (r: seq<Bytes>)
    ensures |r| == |plan|
  {
    seq(|plan|, k requires 0 <= k < |plan| => plan[k].plain)
  }

  function Text(plan: Plan): Bytes {
    Concat(Plains(plan))
  }

  ghost function Frames(c: Context, plan: Plan): Bytes
    requires AllFit(plan)
  {
    if plan == [] then [] else Frame(c, plan[0]) + Frames(c, plan[1..])
  }

  lemma {:induction false} WholeFits(index: nat, plan: Plan)
    requires WholeFrom(index, plan)
    ensures AllFit(plan)
    decreases |plan|
  {
    if !plan[0].final {
      WholeFits(index + 1, plan[1..]);
      assert plan == [plan[0]] + plan[1..];
    }
  }

  lemma {:induction false} FullFits(index: nat, plan: Plan)
    requires FullFrom(index, plan)
    ensures AllFit(plan)
    decreases |plan|
  {
    if plan != [] {
      FullFits(index + 1, plan[1..]);
      assert plan == [plan[0]] + plan[1..];
    }
  }

  lemma {:induction false} PlainsStep(ch: Chunk, rest: Plan)
    ensures Plains([ch] + rest) == [ch.plain] + Plains(rest)
    ensures Text([ch] + rest) == ch.plain + Text(rest)
    ensures Text([ch]) == ch.plain
  {
    assert Plains([ch])[1..] == [];
    assert Concat(Plains([ch])) == ch.plain + Concat([]);
    assert Plains([ch] + rest) == [ch.plain] + Plains(rest);
    assert Plains([ch] + rest)[1..] == Plains(rest);
  }

  /** The plan seal follows: as few chunks as possible. */
  function ShortPlan(index: u32, p: Bytes): Plan
    requires |p| <= (U32_LIMIT - index) * CHUNK_SIZE
    decreases |p|
  {
    if |p| <= CHUNK_SIZE then [Chunk(index, true, p)]
    else [Chunk(index, false, p[..CHUNK_SIZE])] + ShortPlan(index + 1, p[CHUNK_SIZE..])
  }

  /** A longer plan for texts that fill their chunks: one more, empty, final chunk. */
  predicate HasLongPlan(index: u32, p: Bytes) {
    |p| % CHUNK_SIZE == 0 && index + |p| / CHUNK_SIZE < U32_LIMIT
  }

  function LongPlan(index: u32, p: Bytes): Plan
    requires HasLongPlan(index, p)
    decreases |p|
  {
    if p == [] then [Chunk(index, true, [])]
    else [Chunk(index, false, p[..CHUNK_SIZE])] + LongPlan(index + 1, p[CHUNK_SIZE..])
  }

  lemma {:induction false} ShortPlanIsWhole(index: u32, p: Bytes)
    requires |p| <= (U32_LIMIT - index) * CHUNK_SIZE
    ensures WholeFrom(index, ShortPlan(index, p)) && Text(ShortPlan(index, p)) == p
    decreases |p|
  {
    if |p| <= CHUNK_SIZE {
      PlainsStep(Chunk(index, true, p), []);
    } else {
      var rest := ShortPlan(index + 1, p[CHUNK_SIZE..]);
      ShortPlanIsWhole(index + 1, p[CHUNK_SIZE..]);
      PlainsStep(Chunk(index, false, p[..CHUNK_SIZE]), rest);
      assert ShortPlan(index, p)[1..] == rest;
    }
  }

  lemma {:induction false} LongPlanIsWhole(index: u32, p: Bytes)
    requires HasLongPlan(index, p)
    ensures WholeFrom(index, LongPlan(index, p)) && Text(LongPlan(index, p)) == p
    decreases |p|
  {
    if p == [] {
      PlainsStep(Chunk(index, true, []), []);
    } else {
      var rest := LongPlan(index + 1, p[CHUNK_SIZE..]);
      LongPlanIsWhole(index + 1, p[CHUNK_SIZE..]);
      PlainsStep(Chunk(index, false, p[..CHUNK_SIZE]), rest);
      assert LongPlan(index, p)[1..] == rest;
    }
  }

  /** A text has no complete plans besides the short one and, where it exists, the long one. */
  lemma {:induction false} OnlyTwoPlans(index: u32, plan: Plan)
    requires WholeFrom(index, plan)
    ensures var p := Text(plan);
            (|p| <= (U32_LIMIT - index) * CHUNK_SIZE && plan == ShortPlan(index, p))
            || (HasLongPlan(index, p) && plan == LongPlan(index, p))
    decreases |plan|
  {
    var ch, rest := plan[0], plan[1..];
    assert plan == [ch] + rest;
    PlainsStep(ch, rest);
    if ch.final {
      assert Text(rest) == [];
    } else {
      assert rest[0].index == index + 1;
      OnlyTwoPlans(index + 1, rest);
      var p := Text(plan);
      assert p[..CHUNK_SIZE] == ch.plain && p[CHUNK_SIZE..] == Text(rest);
    }
  }

  // ---------------------------------------------------------------- open accepts plans

  /** The chunks an open run reads and authenticates, in order. */
  function Visited(c: Context, index: u32, s: Source): seq<Piece>
    decreases |s.bytes|
  {
    match ReadRecord(c, index, s)
    case Err(_) => []
    case Ok(p) =>
      if p.chunk.final || index == MAX_INDEX then [p]
      else [p] + Visited(c, index + 1, Source(p.rest, s.fault))
  }

  function ChunksOf(pieces: seq<Piece>): (r: Plan)
    ensures |r| == |pieces|
  {
    seq(|pieces|, k requires 0 <= k < |pieces| => pieces[k].chunk)
  }

  lemma {:induction false} ChunksOfStep(p: Piece, rest: seq<Piece>)
    ensures ChunksOf([p] + rest) == [p.chunk] + ChunksOf(rest)
  {
  }

  /** An open run that succeeds has read a complete plan and nothing else, and wrote its chunks. */
  lemma {:induction false} OpenReadsWholePlan(c: Context, index: u32, s: Source)
    requires OpenFrom(c, index, s).outcome == Done
    ensures var plan := ChunksOf(Visited(c, index, s));
            && c.AadFits() && !s.fault && WholeFrom(index, plan) && AllFit(plan)
            && s.bytes == Frames(c, plan) && OpenFrom(c, index, s).writes == Plains(plan)
    decreases |s.bytes|
  {
    hide ReadRecord;
    var p := ReadRecord(c, index, s).value;
    ReadRecordExact(c, index, s, p);
    var plan := ChunksOf(Visited(c, index, s));
    if p.chunk.final {
      assert plan == [p.chunk];
    } else {
      var next := Source(p.rest, s.fault);
      OpenReadsWholePlan(c, index + 1, next);
      ChunksOfStep(p, Visited(c, index + 1, next));
      PlainsStep(p.chunk, ChunksOf(Visited(c, index + 1, next)));
      assert plan[1..] == ChunksOf(Visited(c, index + 1, next));
    }
  }

  /** The frames of a complete plan open to its chunks. */
  lemma {:induction false} OpenAcceptsWholePlan(c: Context, index: u32, plan: Plan)
    requires WholeFrom(index, plan) && AllFit(plan) && c.AadFits()
    ensures OpenFrom(c, index, Source(Frames(c, plan), false)) == Run(Plains(plan), Done)
    ensures ChunksOf(Visited(c, index, Source(Frames(c, plan), false))) == plan
    decreases |plan|
  {
    var ch := plan[0];
    var rest := Frames(c, plan[1..]);
    var sealed := SealChunk(c, ch).value;
    var p := Piece(ch, sealed.text, sealed.tag, rest);
    ReadRecordExact(c, index, Source(Frames(c, plan), false), p);
    assert plan == [ch] + plan[1..];
    PlainsStep(ch, plan[1..]);
    if !ch.final {
      OpenAcceptsWholePlan(c, index + 1, plan[1..]);
      ChunksOfStep(p, Visited(c, index + 1, Source(rest, false)));
    } else {
      assert Plains(plan) == [ch.plain];
    }
  }

  ghost function ShortPayload(c: Context, p: Bytes): Bytes
    requires |p| <= U32_LIMIT * CHUNK_SIZE
  {
    ShortPlanIsWhole(0, p);
    WholeFits(0, ShortPlan(0, p));
    Frames(c, ShortPlan(0, p))
  }

  ghost function LongPayload(c: Context, p: Bytes): Bytes
    requires HasLongPlan(0, p)
  {
    LongPlanIsWhole(0, p);
    WholeFits(0, LongPlan(0, p));
    Frames(c, LongPlan(0, p))
  }

  ghost predicate Encodes(c: Context, payload: Bytes, p: Bytes) {
    || (|p| <= U32_LIMIT * CHUNK_SIZE && payload == ShortPayload(c, p))
    || (HasLongPlan(0, p) && payload == LongPayload(c, p))
  }

  ghost predicate OpensTo(c: Context, s: Source, p: Bytes) {
    var run := OpenFrom(c, 0, s);
    run.outcome == Done && Concat(run.writes) == p
  }

  /**
   * Exact acceptance of the record stream: a byte string opens to `p` if and only if it is the
   * short encoding of `p` or, where that exists, the long one.
   */
  lemma {:induction false} PayloadAcceptance(c: Context, s: Source, p: Bytes)
    ensures OpensTo(c, s, p) <==> c.AadFits() && !s.fault && Encodes(c, s.bytes, p)
  {
    if OpensTo(c, s, p) {
      OpensOnlyEncodings(c, s, p);
    }
    if c.AadFits() && !s.fault && Encodes(c, s.bytes, p) {
      OpensEncodings(c, s.bytes, p);
    }
  }

  lemma {:induction false} OpensOnlyEncodings(c: Context, s: Source, p: Bytes)
    requires OpensTo(c, s, p)
    ensures c.AadFits() && !s.fault && Encodes(c, s.bytes, p)
  {
    OpenReadsWholePlan(c, 0, s);
    OnlyTwoPlans(0, ChunksOf(Visited(c, 0, s)));
  }

  lemma {:induction false} OpensEncodings(c: Context, payload: Bytes, p: Bytes)
    requires c.AadFits() && Encodes(c, payload, p)
    ensures OpensTo(c, Source(payload, false), p)
  {
    if |p| <= U32_LIMIT * CHUNK_SIZE && payload == ShortPayload(c, p) {
      ShortPlanIsWhole(0, p);
      WholeFits(0, ShortPlan(0, p));
      OpenAcceptsWholePlan(c, 0, ShortPlan(0, p));
    } else {
      LongPlanIsWhole(0, p);
      WholeFits(0, LongPlan(0, p));
      OpenAcceptsWholePlan(c, 0, LongPlan(0, p));
    }
  }

  // ---------------------------------------------------------------- sizes

  lemma {:induction false} FramesSize(c: Context, plan: Plan)
    requires AllFit(plan)
    ensures |Frames(c, plan)| == |Text(plan)| + (RECORD_HEADER_SIZE + TAG_SIZE) * |plan|
    decreases |plan|
  {
    if plan != [] {
      FramesSize(c, plan[1..]);
      assert plan == [plan[0]] + plan[1..];
      PlainsStep(plan[0], plan[1..]);
    }
  }

  /** The number of chunks seal writes for `n` bytes: none of them empty, unless the text is. */
  function ChunkCount(n: nat): nat {
    if n == 0 then 1 else (n + CHUNK_SIZE - 1) / CHUNK_SIZE
  }

  lemma {:induction false} ShortPlanSize(index: u32, p: Bytes)
    requires |p| <= (U32_LIMIT - index) * CHUNK_SIZE
    ensures |ShortPlan(index, p)| == ChunkCount(|p|)
    decreases |p|
  {
    if |p| > CHUNK_SIZE {
      ShortPlanSize(index + 1, p[CHUNK_SIZE..]);
    }
  }

  lemma {:induction false} LongPlanSize(index: u32, p: Bytes)
    requires HasLongPlan(index, p)
    ensures |LongPlan(index, p)| == |p| / CHUNK_SIZE + 1
    decreases |p|
  {
    if p != [] {
      LongPlanSize(index + 1, p[CHUNK_SIZE..]);
    }
  }

  /**
   * The size law, and how many encodings a text has: the short one always, and a second one,
   * one record longer, exactly for positive multiples of the chunk size below the maximum.
   */
  lemma {:induction false} EncodingSizes(c: Context, p: Bytes)
    requires |p| <= U32_LIMIT * CHUNK_SIZE
    ensures |ShortPayload(c, p)| == |p| + 25 * ChunkCount(|p|)
    ensures HasLongPlan(0, p) ==>
              |LongPayload(c, p)| == |ShortPayload(c, p)| + if p == [] then 0 else 25
    ensures HasLongPlan(0, p) <==> |p| % CHUNK_SIZE == 0 && |p| < U32_LIMIT * CHUNK_SIZE
    ensures p == [] ==> LongPayload(c, p) == ShortPayload(c, p)
  {
    ShortPlanIsWhole(0, p);
    WholeFits(0, ShortPlan(0, p));
    FramesSize(c, ShortPlan(0, p));
    ShortPlanSize(0, p);
    if HasLongPlan(0, p) {
      LongPlanIsWhole(0, p);
      WholeFits(0, LongPlan(0, p));
      FramesSize(c, LongPlan(0, p));
      LongPlanSize(0, p);
    }
  }
}
