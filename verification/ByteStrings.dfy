/** Byte strings, error codes and 32-bit big-endian integers, shared by every component. */
module ByteStrings {
  newtype byte = x: int | 0 <= x < 0x100
  type Bytes = seq<byte>

  const U32_LIMIT: nat := 0x1_0000_0000
  type u32 = x: nat | x < U32_LIMIT

  /** The largest size one backend call accepts (`std::numeric_limits<int>::max()`). */
  const INT_MAX: nat := 0x7FFF_FFFF

  datatype ErrorCode = InvalidInput | InvalidEncoding | InvalidPacket | AuthenticationFailed | BackendFailure
  datatype Result<+T> = Ok(value: T) | Err(error: ErrorCode)
  datatype Option<+T> = None | Some(value: T)

  function U32Be(v: u32): (r: Bytes)
    ensures |r| == 4
  {
    [(v / 0x100_0000) as byte, (v / 0x1_0000 % 0x100) as byte, (v / 0x100 % 0x100) as byte, (v % 0x100) as byte]
  }

  function ReadU32Be(b: Bytes): (v: u32)
    requires |b| == 4
  {
    b[0] as int * 0x100_0000 + b[1] as int * 0x1_0000 + b[2] as int * 0x100 + b[3] as int
  }

  lemma {:induction false} LowByte(high: nat, low: nat)
    requires low < 0x100
    ensures (0x100 * high + low) / 0x100 == high && (0x100 * high + low) % 0x100 == low
  {
  }

  /** Dividing by powers of 256 one byte at a time. */
  lemma {:induction false} DivideTwice(v: nat)
    ensures v / 0x1_0000 == v / 0x100 / 0x100 && v / 0x100_0000 == v / 0x100 / 0x100 / 0x100
  {
  }

  /** The two integer codecs are inverse on every 32-bit value and on every four bytes. */
  lemma {:induction false} U32RoundTrip(v: u32, b: Bytes)
    requires |b| == 4
    ensures ReadU32Be(U32Be(v)) == v
    ensures U32Be(ReadU32Be(b)) == b
  {
    DivideTwice(v);
    BytesRoundTrip(b);
  }

  lemma {:induction false} BytesRoundTrip(b: Bytes)
    requires |b| == 4
    ensures U32Be(ReadU32Be(b)) == b
  {
    var b0, b1, b2, b3 := b[0] as nat, b[1] as nat, b[2] as nat, b[3] as nat;
    var n := ReadU32Be(b);
    assert n == 0x100 * (0x100 * (0x100 * b0 + b1) + b2) + b3;
    LowByte(0x100 * (0x100 * b0 + b1) + b2, b3);
    LowByte(0x100 * b0 + b1, b2);
    LowByte(b0, b1);
    DivideTwice(n);
  }

  lemma {:induction false} U32BeInjective(v: u32, w: u32)
    requires U32Be(v) == U32Be(w)
    ensures v == w
  {
    U32RoundTrip(v, U32Be(v));
    U32RoundTrip(w, U32Be(w));
  }

  /** Writes `value` big-endian into four cells of a buffer and touches no other cell. */
  method StoreU32Be(output: array<byte>, at: nat, value: u32)
    requires at + 4 <= output.Length
    modifies output
    ensures output[..] == old(output[..at]) + U32Be(value) + old(output[at + 4..])
  {
    output[at] := (value / 0x100_0000 % 0x100) as byte;
    output[at + 1] := (value / 0x1_0000 % 0x100) as byte;
    output[at + 2] := (value / 0x100 % 0x100) as byte;
    output[at + 3] := (value % 0x100) as byte;
  }

  /** Copies `source` into a buffer at `at` and touches no other cell. */
  method CopyInto(source: Bytes, output: array<byte>, at: nat)
    requires at + |source| <= output.Length
    modifies output
    ensures output[..] == old(output[..at]) + source + old(output[at + |source|..])
  {
    for i := 0 to |source|
      invariant output[..at + i] == old(output[..at]) + source[..i]
      invariant output[at + i..] == old(output[at + i..])
    {
      output[at + i] := source[i];
    }
  }

  function Concat(parts: seq<Bytes>): Bytes {
    if parts == [] then [] else parts[0] + Concat(parts[1..])
  }

  lemma {:induction false} ConcatFront(parts: seq<Bytes>)
    ensures Concat(parts) == if parts == [] then [] else parts[0] + Concat(parts[1..])
  {
  }

  lemma {:induction false} ConcatAppend(a: seq<Bytes>, b: seq<Bytes>)
    ensures Concat(a + b) == Concat(a) + Concat(b)
  {
    hide Concat;
    ConcatFront(a);
    if a == [] {
      assert a + b == b;
    } else {
      ConcatFront(a + b);
      ConcatAppend(a[1..], b);
      assert (a + b)[0] == a[0] && (a + b)[1..] == a[1..] + b;
    }
  }
}
