/**
 * What a sealed file is, byte by byte: where each record stands, what it holds, and which key,
 * nonce and authenticated data it was made with, told without the functions that seal.
 */
module SealedBytes {
  import opened ByteStrings
  import opened Gcm
  import opened FileCrypto
  import opened Streams
  import opened FileFormat
  import opened Records
  import opened Acceptance
  import opened Sealing

  /** The bytes of a text in ASCII. */
  function Ascii(text: string): Bytes
    requires forall k | 0 <= k < |text| :: text[k] < 128 as char
  {
    seq(|text|, k requires 0 <= k < |text| => text[k] as byte)
  }

  /** Four bytes, most significant first, stand for a number. */
  predicate BigEndian(b: Bytes, v: nat) {
    |b| == 4 && b[0] as nat * 0x100_0000 + b[1] as nat * 0x1_0000 + b[2] as nat * 0x100 + b[3] as nat == v
  }

  /** The file key: HKDF of the caller's key under the format's label, or scrypt of the password. */
  function FileKey(b: Backend, secret: Secret, salt: Salt): Key {
    match secret
    case MasterKey(key) => b.kdf.hkdf(key, salt, Ascii("anosecurekit file sealing v1"))
    case Password(text) => b.kdf.scrypt(text, salt, 32768, 8, 1, 64 * 1024 * 1024)
  }

  lemma {:induction false} DeriveKeyIsFileKey(b: Backend, secret: Secret, salt: Salt)
    ensures DeriveKey(b.kdf, secret, salt) == FileKey(b, secret, salt)
  {
    assert INFO == Ascii("anosecurekit file sealing v1");
  }

  /** Chunk `k` of the chunks that seal makes of `p`, counted from `index`. */
  function ChunkAt(index: u32, p: Bytes, k: nat): Chunk
    requires k == 0 || k * CHUNK_SIZE < |p|
    requires index + k < U32_LIMIT
  {
    var rest := p[k * CHUNK_SIZE..];
    if |rest| <= CHUNK_SIZE then Chunk(index + k, true, rest) else Chunk(index + k, false, rest[..CHUNK_SIZE])
  }

  lemma {:induction false} SliceBehind(a: Bytes, b: Bytes, at: nat, n: nat)
    requires at + n <= |b|
    ensures (a + b)[|a| + at..|a| + at + n] == b[at..at + n]
  {
  }

  lemma {:induction false} SliceOfSlice(b: Bytes, at: nat, n: nat, from: nat, to: nat)
    requires from <= to <= n && at + n <= |b|
    ensures b[at..at + n][from..to] == b[at + from..at + to]
  {
    var left, right := b[at..at + n][from..to], b[at + from..at + to];
    forall k | 0 <= k < |left|
      ensures left[k] == right[k]
    {
      assert left[k] == b[at..at + n][from + k] == b[at + from + k];
    }
    assert left == right;
  }

  lemma {:induction false} FourBytes(b: Bytes, at: nat, four: Bytes)
    requires at + 4 <= |b| && |four| == 4
    requires b[at] == four[0] && b[at + 1] == four[1] && b[at + 2] == four[2] && b[at + 3] == four[3]
    ensures b[at..at + 4] == four
  {
  }

  lemma {:induction false} ChunkAtNext(index: u32, p: Bytes, k: nat)
    requires k > 0 && k * CHUNK_SIZE < |p| && index + k < U32_LIMIT
    ensures ChunkAt(index, p, k) == ChunkAt(index + 1, p[CHUNK_SIZE..], k - 1)
  {
    assert p[CHUNK_SIZE..][(k - 1) * CHUNK_SIZE..] == p[k * CHUNK_SIZE..];
  }

  lemma {:induction false} FirstFrame(c: Context, index: u32, p: Bytes)
    requires |p| <= (U32_LIMIT - index) * CHUNK_SIZE && AllFit(ShortPlan(index, p))
    ensures var ch, frames := ChunkAt(index, p, 0), Frames(c, ShortPlan(index, p));
            && Frame(c, ch) <= frames && (ch.final ==> frames == Frame(c, ch))
            && (!ch.final ==> frames == Frame(c, ch) + Frames(c, ShortPlan(index + 1, p[CHUNK_SIZE..])))
  {
    hide Frame;
    assert p[0..] == p;
    var plan := ShortPlan(index, p);
    assert plan[0] == ChunkAt(index, p, 0);
    if plan[0].final {
      assert plan[1..] == [] && Frames(c, []) == [];
    } else {
      assert plan[1..] == ShortPlan(index + 1, p[CHUNK_SIZE..]);
    }
  }

  /** The frame of chunk `k` stands behind `k` full frames, and that of the final chunk at the end. */
  lemma {:induction false} FrameAt(c: Context, index: u32, p: Bytes, k: nat)
    requires |p| <= (U32_LIMIT - index) * CHUNK_SIZE
    requires k == 0 || k * CHUNK_SIZE < |p|
    ensures index + k < U32_LIMIT && AllFit(ShortPlan(index, p))
    ensures var frames, ch := Frames(c, ShortPlan(index, p)), ChunkAt(index, p, k);
            var at, n := k * FULL_FRAME, 25 + |ch.plain|;
            && at + n <= |frames| && frames[at..at + n] == Frame(c, ch)
            && (ch.final ==> |frames| == at + n)
    decreases k
  {
    hide Frame, Frames, ShortPlan;
    ShortPlanIsWhole(index, p);
    WholeFits(index, ShortPlan(index, p));
    FirstFrame(c, index, p);
    if k > 0 {
      var rest := p[CHUNK_SIZE..];
      FrameAt(c, index + 1, rest, k - 1);
      ChunkAtNext(index, p, k);
      var first := Frame(c, ChunkAt(index, p, 0));
      assert |first| == FULL_FRAME;
      SliceBehind(first, Frames(c, ShortPlan(index + 1, rest)), (k - 1) * FULL_FRAME,
                  25 + |ChunkAt(index, p, k).plain|);
    }
  }

  /** The parts of a frame. */
  lemma {:induction false} FrameParts(c: Context, ch: Chunk)
    requires |ch.plain| <= CHUNK_SIZE
    ensures var f, size := Frame(c, ch), |ch.plain|;
            && |f| == 25 + size
            && BigEndian(f[..4], ch.index) && BigEndian(f[4..8], size) && f[8] == (if ch.final then 1 else 0)
            && FlippedBy(c.cipher, c.key, c.noncePrefix + f[..4], 0, ch.plain, f[9..9 + size])
            && f[9 + size..] == c.cipher.tag(c.key, c.noncePrefix + f[..4], c.header + f[..9] + c.aad, f[9..9 + size])
  {
    hide FlippedBy, ParseRecordHeader;
    var f, r := Frame(c, ch), ch.Header();
    var text := Mask(c.cipher, c.key, ChunkNonce(c.noncePrefix, ch.index), 0, ch.plain);
    assert f[..9] == RecordBytes(r) && f[9..9 + |ch.plain|] == text;
    assert f[..4] == U32Be(ch.index) && f[4..8] == U32Be(|ch.plain|) && f[8] == RecordBytes(r)[8];
    U32RoundTrip(ch.index, f[..4]);
    U32RoundTrip(|ch.plain|, f[4..8]);
    MaskFlips(c.cipher, c.key, ChunkNonce(c.noncePrefix, ch.index), 0, ch.plain, text);
  }

  /**
   * Record `k` of a sealed file. It stands behind the header and `k` full records of 1048601
   * bytes; it holds index, size and final flag, the text of chunk `k` with the key stream's bits
   * flipped, and a tag. Both are under the file key and the nonce of prefix and index, and the
   * tag covers header, record header, caller AAD and ciphertext. The final record ends the file.
   */
  lemma {:induction false} RecordInSealedFile(
      b: Backend, secret: Secret, aad: Bytes, salt: Salt, noncePrefix: NoncePrefix, p: Bytes, k: nat)
    requires SealRun(b, secret, aad, salt, noncePrefix, Source(p, false)).outcome == Done
    requires k == 0 || k * 0x10_0000 < |p|
    ensures var file := Concat(SealRun(b, secret, aad, salt, noncePrefix, Source(p, false)).writes);
            var h := if secret.MasterKey? then 50 else 64;
            var left := |p| - k * 0x10_0000;
            var size := if left < 0x10_0000 then left else 0x10_0000;
            var at := h + k * 1048601;
            && at + 25 + size <= |file| && (left <= 0x10_0000 ==> at + 25 + size == |file|)
            && var f := file[at..at + 25 + size];
               var key, nonce := FileKey(b, secret, salt), noncePrefix + f[..4];
               && BigEndian(f[..4], k) && BigEndian(f[4..8], size)
               && f[8] == (if left <= 0x10_0000 then 1 else 0)
               && FlippedBy(b.cipher, key, nonce, 0, p[k * 0x10_0000..k * 0x10_0000 + size], f[9..9 + size])
               && f[9 + size..] == b.cipher.tag(key, nonce, file[..h] + f[..9] + aad, f[9..9 + size])
  {
    hide SealRun, Frame, FlippedBy, BigEndian, HeaderBytes, ShortPlan, Frames, FileKey;
    SealExact(b, secret, aad, salt, noncePrefix, Source(p, false));
    var c := SealContext(b, secret, aad, salt, noncePrefix);
    DeriveKeyIsFileKey(b, secret, salt);
    FrameAt(c, 0, p, k);
    var ch := ChunkAt(0, p, k);
    FrameParts(c, ch);
    var frames := Frames(c, ShortPlan(0, p));
    var file := c.header + frames;
    assert file == SealedFile(b, secret, aad, salt, noncePrefix, p);
    assert file[..|c.header|] == c.header;
    SliceBehind(c.header, frames, k * FULL_FRAME, 25 + |ch.plain|);
    ChunkText(p, k);
  }

  lemma {:induction false} ChunkText(p: Bytes, k: nat)
    requires k < U32_LIMIT && (k == 0 || k * CHUNK_SIZE < |p|)
    ensures var ch := ChunkAt(0, p, k);
            var left := |p| - k * CHUNK_SIZE;
            && ch.index == k && (ch.final <==> left <= CHUNK_SIZE)
            && |ch.plain| == (if left < CHUNK_SIZE then left else CHUNK_SIZE)
            && ch.plain == p[k * CHUNK_SIZE..k * CHUNK_SIZE + |ch.plain|]
  {
  }

  /** The header of a sealed file, byte for byte. */
  lemma {:induction false} HeaderInSealedFile(
      b: Backend, secret: Secret, aad: Bytes, salt: Salt, noncePrefix: NoncePrefix, p: Bytes)
    requires SealRun(b, secret, aad, salt, noncePrefix, Source(p, false)).outcome == Done
    ensures var file := Concat(SealRun(b, secret, aad, salt, noncePrefix, Source(p, false)).writes);
            match secret
            case MasterKey(_) =>
              && |file| >= 50 && file[..4] == Ascii("SKF1") && file[4..6] == [1, 1] && BigEndian(file[6..10], 1048576)
              && file[10..42] == salt && file[42..50] == noncePrefix
            case Password(_) =>
              && |file| >= 64 && file[..4] == Ascii("SKP1") && file[4..8] == [1, 1, 1, 0]
              && BigEndian(file[8..12], 1048576) && file[12..44] == salt && file[44..52] == noncePrefix
              && BigEndian(file[52..56], 32768) && BigEndian(file[56..60], 8) && BigEndian(file[60..64], 1)
  {
    hide SealRun, HeaderBytes, ShortPayload;
    SealExact(b, secret, aad, salt, noncePrefix, Source(p, false));
    var f := secret.Format();
    var file := SealedFile(b, secret, aad, salt, noncePrefix, p);
    var header := HeaderBytes(f, salt, noncePrefix);
    assert file[0..HeaderSize(f)] == header;
    HeaderFields(f, salt, noncePrefix, file);
  }

  lemma {:induction false} HeaderFields(f: Format, salt: Salt, noncePrefix: NoncePrefix, file: Bytes)
    requires |file| >= HeaderSize(f) && file[0..HeaderSize(f)] == HeaderBytes(f, salt, noncePrefix)
    ensures match f
            case Skf1 =>
              && file[..4] == Ascii("SKF1") && file[4..6] == [1, 1] && BigEndian(file[6..10], 1048576)
              && file[10..42] == salt && file[42..50] == noncePrefix
            case Skp1 =>
              && file[..4] == Ascii("SKP1") && file[4..8] == [1, 1, 1, 0]
              && BigEndian(file[8..12], 1048576) && file[12..44] == salt && file[44..52] == noncePrefix
              && BigEndian(file[52..56], 32768) && BigEndian(file[56..60], 8) && BigEndian(file[60..64], 1)
  {
    hide HeaderBytes, Ascii, BigEndian;
    var header, n := HeaderBytes(f, salt, noncePrefix), HeaderSize(f);
    HeaderLayout(f, salt, noncePrefix);
    Magics();
    match f
    case Skf1 =>
      SliceOfSlice(file, 0, n, 0, 10);
      SliceOfSlice(file, 0, n, 10, 42);
      SliceOfSlice(file, 0, n, 42, 50);
      RawConstants(file[0..10], file);
    case Skp1 =>
      SliceOfSlice(file, 0, n, 0, 12);
      SliceOfSlice(file, 0, n, 12, 44);
      SliceOfSlice(file, 0, n, 44, 52);
      SliceOfSlice(file, 0, n, 52, 64);
      PasswordConstants(file[0..12], file[52..64], file);
  }

  lemma {:induction false} Magics()
    ensures Ascii("SKF1") == [0x53, 0x4B, 0x46, 0x31] && Ascii("SKP1") == [0x53, 0x4B, 0x50, 0x31]
    ensures BigEndian([0, 0x10, 0, 0], 1048576) && BigEndian([0, 0, 0x80, 0], 32768)
    ensures BigEndian([0, 0, 0, 8], 8) && BigEndian([0, 0, 0, 1], 1)
  {
  }

  lemma {:induction false} RawConstants(front: Bytes, file: Bytes)
    requires |file| >= 50 && file[0..10] == front == [0x53, 0x4B, 0x46, 0x31, 1, 1, 0, 0x10, 0, 0]
    ensures file[..4] == [0x53, 0x4B, 0x46, 0x31] && file[4..6] == [1, 1] && file[6..10] == [0, 0x10, 0, 0]
  {
    forall i | 0 <= i < 10
      ensures file[i] == front[i]
    {
    }
    FourBytes(file, 0, [0x53, 0x4B, 0x46, 0x31]);
    FourBytes(file, 6, [0, 0x10, 0, 0]);
  }

  lemma {:induction false} PasswordConstants(front: Bytes, end: Bytes, file: Bytes)
    requires |file| >= 64 && file[0..12] == front == [0x53, 0x4B, 0x50, 0x31, 1, 1, 1, 0, 0, 0x10, 0, 0]
    requires file[52..64] == end == [0, 0, 0x80, 0, 0, 0, 0, 8, 0, 0, 0, 1]
    ensures file[..4] == [0x53, 0x4B, 0x50, 0x31] && file[4..8] == [1, 1, 1, 0] && file[8..12] == [0, 0x10, 0, 0]
    ensures file[52..56] == [0, 0, 0x80, 0] && file[56..60] == [0, 0, 0, 8] && file[60..64] == [0, 0, 0, 1]
  {
    forall i | 0 <= i < 12
      ensures file[i] == front[i] && file[52 + i] == end[i]
    {
    }
    FourBytes(file, 0, [0x53, 0x4B, 0x50, 0x31]);
    FourBytes(file, 4, [1, 1, 1, 0]);
    FourBytes(file, 8, [0, 0x10, 0, 0]);
    LastFields(end, file);
  }

  lemma {:induction false} LastFields(end: Bytes, file: Bytes)
    requires |file| >= 64 && |end| == 12 && forall i | 0 <= i < 12 :: end[i] == file[52 + i]
    ensures file[52..56] == end[..4] && file[56..60] == end[4..8] && file[60..64] == end[8..]
  {
    assert end[0] == file[52] && end[1] == file[53] && end[2] == file[54] && end[3] == file[55];
    assert end[4] == file[56] && end[5] == file[57] && end[6] == file[58] && end[7] == file[59];
    assert end[8] == file[60] && end[9] == file[61] && end[10] == file[62] && end[11] == file[63];
    FourBytes(file, 52, end[..4]);
    FourBytes(file, 56, end[4..8]);
    FourBytes(file, 60, end[8..]);
  }
}
