/**
 * Strict Base64 and Base64URL (sections 4, 5 and 3.5 of RFC 4648): the encoders, the decoders
 * with their validity scans and canonical-form checks, and the exact set of strings they accept.
 */
module Base64 {
  import opened ByteStrings

  // ---------------------------------------------------------------- the alphabet

  /** The character of a six-bit value. */
  function SextetChar(v: nat): char
    requires v < 64
  {
    if v < 26 then 'A' + v as char
    else if v < 52 then 'a' + (v - 26) as char
    else if v < 62 then '0' + (v - 52) as char
    else if v == 62 then '+'
    else '/'
  }

  function DecodeChar(ch: char): (v: int)
    ensures -1 <= v < 64
  {
    if 'A' <= ch <= 'Z' then ch as int - 'A' as int
    else if 'a' <= ch <= 'z' then ch as int - 'a' as int + 26
    else if '0' <= ch <= '9' then ch as int - '0' as int + 52
    else if ch == '+' then 62
    else if ch == '/' then 63
    else -1
  }

  const LETTERS: string := "ABCDEFGHIJKLMNOPQRSTUVWXYZ" + "abcdefghijklmnopqrstuvwxyz"
  const ALPHABET: string := LETTERS + "0123456789" + "+/"

  function AlphabetChar(v: nat): char
    requires v < 64
  {
    ALPHABET[v]
  }

  lemma {:induction false} LettersAndDigits(i: nat)
    ensures i < 26 ==> ALPHABET[i] == 'A' + i as char
    ensures i < 26 ==> ALPHABET[26 + i] == 'a' + i as char
    ensures i < 10 ==> ALPHABET[52 + i] == '0' + i as char
  {
  }

  /** The encoder's table is the alphabet. */
  lemma {:induction false} SextetCharIsAlphabet(v: nat)
    requires v < 64
    ensures SextetChar(v) == AlphabetChar(v)
  {
    if v < 26 {
      LettersAndDigits(v);
    } else if v < 52 {
      LettersAndDigits(v - 26);
    } else if v < 62 {
      LettersAndDigits(v - 52);
    }
  }

  /** The decoder's table: a character decodes to its place in the alphabet, and to -1 if it has none. */
  lemma {:induction false} DecodeCharIsPlace(ch: char, v: nat)
    requires v < 64
    ensures |ALPHABET| == 64
    ensures DecodeChar(ch) == v <==> ch == ALPHABET[v]
    ensures DecodeChar(ch) == -1 <==> ch !in ALPHABET
  {
    SextetCharIsAlphabet(v);
    if DecodeChar(ch) >= 0 {
      SextetCharIsAlphabet(DecodeChar(ch));
    }
    if k: nat :| k < 64 && ALPHABET[k] == ch {
      SextetCharIsAlphabet(k);
    }
  }

  predicate InAlphabet(ch: char) {
    DecodeChar(ch) >= 0
  }

  // ---------------------------------------------------------------- encoding

  /** The four characters of a 24-bit group, most significant sextet first. */
  function GroupChars(n: nat): (r: string)
    requires n < 0x100_0000
    ensures |r| == 4
  {
    [SextetChar(n / 0x4_0000), SextetChar(n / 0x1000 % 64), SextetChar(n / 64 % 64), SextetChar(n % 64)]
  }

  function Group(b0: byte, b1: byte, b2: byte): (n: nat)
    ensures n < 0x100_0000
  {
    b0 as nat * 0x1_0000 + b1 as nat * 0x100 + b2 as nat
  }

  /** The encoding: groups of three bytes as 24-bit numbers; an incomplete last group is padded with `=`. */
  function Encode(b: Bytes): string {
    if b == [] then ""
    else if |b| == 1 then GroupChars(Group(b[0], 0, 0))[..2] + "=="
    else if |b| == 2 then GroupChars(Group(b[0], b[1], 0))[..3] + "="
    else GroupChars(Group(b[0], b[1], b[2])) + Encode(b[3..])
  }

  lemma {:induction false} Sextet(high: nat, low: nat)
    requires low < 64
    ensures (64 * high + low) / 64 == high && (64 * high + low) % 64 == low
  {
  }

  /** The four sextets of a 24-bit number built from them. */
  lemma {:induction false} Sextets(s0: nat, s1: nat, s2: nat, s3: nat)
    requires s0 < 64 && s1 < 64 && s2 < 64 && s3 < 64
    ensures var n := s0 * 0x4_0000 + s1 * 0x1000 + s2 * 64 + s3;
            n / 0x4_0000 == s0 && n / 0x1000 % 64 == s1 && n / 64 % 64 == s2 && n % 64 == s3
  {
    var n := s0 * 0x4_0000 + s1 * 0x1000 + s2 * 64 + s3;
    Sextet(s0 * 0x1000 + s1 * 64 + s2, s3);
    Sextet(s0 * 64 + s1, s2);
    assert n / 0x1000 == s0 * 64 + s1;
    Sextet(s0, s1);
  }

  /** The sextets computed byte by byte, and the bytes they stand for. */
  lemma {:induction false} ByteSextets(x0: nat, x1: nat, x2: nat)
    requires x0 < 0x100 && x1 < 0x100 && x2 < 0x100
    ensures x0 / 4 % 64 == x0 / 4
    ensures (x0 * 16 + x1 / 16) % 64 == x0 % 4 * 16 + x1 / 16
    ensures (x1 * 4 + x2 / 64) % 64 == x1 % 16 * 4 + x2 / 64
  {
    Sextet(x0 / 4, x0 % 4 * 16 + x1 / 16);
    Sextet(x1 / 16, x1 % 16 * 4 + x2 / 64);
    assert x0 * 16 == 64 * (x0 / 4) + x0 % 4 * 16;
    assert x1 * 4 == 64 * (x1 / 16) + x1 % 16 * 4;
  }

  /** The sextets computed byte by byte are the sextets of the 24-bit group. */
  lemma {:induction false} GroupSextets(x0: nat, x1: nat, x2: nat)
    requires x0 < 0x100 && x1 < 0x100 && x2 < 0x100
    ensures var n := x0 * 0x1_0000 + x1 * 0x100 + x2;
            && n / 0x4_0000 == x0 / 4 % 64
            && n / 0x1000 % 64 == (x0 * 16 + x1 / 16) % 64
            && n / 64 % 64 == (x1 * 4 + x2 / 64) % 64
            && n % 64 == x2 % 64
  {
    ByteSextets(x0, x1, x2);
    var s0, s1, s2, s3 := x0 / 4, x0 % 4 * 16 + x1 / 16, x1 % 16 * 4 + x2 / 64, x2 % 64;
    Sextets(s0, s1, s2, s3);
    assert x0 * 0x1_0000 + x1 * 0x100 + x2 == s0 * 0x4_0000 + s1 * 0x1000 + s2 * 64 + s3;
  }

  /** The sextets of up to three bytes, as the encoder shifts and masks them out. */
  function Sextet0(x0: nat): (v: nat)
    ensures v < 64
  {
    x0 / 4 % 64
  }

  function Sextet1(x0: nat, x1: nat): (v: nat)
    ensures v < 64
  {
    (x0 * 16 + x1 / 16) % 64
  }

  function Sextet2(x1: nat, x2: nat): (v: nat)
    ensures v < 64
  {
    (x1 * 4 + x2 / 64) % 64
  }

  function Sextet3(x2: nat): (v: nat)
    ensures v < 64
  {
    x2 % 64
  }

  /** The characters the encoder pushes for the bytes at the front of `b`, computed byte by byte. */
  function FrontChars(b: Bytes): (r: string)
    requires b != []
    ensures |r| == 4
  {
    var x0 := b[0] as nat;
    var x1 := if |b| > 1 then b[1] as nat else 0;
    var x2 := if |b| > 2 then b[2] as nat else 0;
    [SextetChar(Sextet0(x0)), SextetChar(Sextet1(x0, x1)),
     if |b| > 1 then SextetChar(Sextet2(x1, x2)) else '=',
     if |b| > 2 then SextetChar(Sextet3(x2)) else '=']
  }

  /** The group of three bytes, as the encoder computes it. */
  lemma {:induction false} GroupFront(b0: byte, b1: byte, b2: byte)
    ensures var x0, x1, x2 := b0 as nat, b1 as nat, b2 as nat;
            GroupChars(Group(b0, b1, b2))
            == [SextetChar(Sextet0(x0)), SextetChar(Sextet1(x0, x1)),
                SextetChar(Sextet2(x1, x2)), SextetChar(Sextet3(x2))]
  {
    hide SextetChar;
    GroupSextets(b0 as nat, b1 as nat, b2 as nat);
  }

  lemma {:induction false} EncodeFront(b: Bytes)
    requires b != []
    ensures Encode(b) == FrontChars(b) + Encode(if |b| > 2 then b[3..] else [])
  {
    hide SextetChar, GroupChars, Group;
    var g := GroupChars(Group(b[0], if |b| > 1 then b[1] else 0, if |b| > 2 then b[2] else 0));
    GroupFront(b[0], if |b| > 1 then b[1] else 0, if |b| > 2 then b[2] else 0);
    if |b| == 1 {
      assert Encode(b) == g[..2] + "==" == FrontChars(b) + Encode([]);
    } else if |b| == 2 {
      assert Encode(b) == g[..3] + "=" == FrontChars(b) + Encode([]);
    } else {
      assert g == FrontChars(b);
    }
  }

  /**
   * The four characters for the first bytes of `b`: the places in the alphabet are the six-bit
   * pieces of three bytes, absent bytes count as zero, and `=` stands where no byte contributes.
   */
  function AlphabetGroup(b: Bytes): (r: string)
    requires b != []
    ensures |r| == 4
  {
    var x0 := b[0] as nat;
    var x1 := if |b| > 1 then b[1] as nat else 0;
    var x2 := if |b| > 2 then b[2] as nat else 0;
    [AlphabetChar(x0 / 4), AlphabetChar(x0 % 4 * 16 + x1 / 16),
     if |b| > 1 then AlphabetChar(x1 % 16 * 4 + x2 / 64) else '=',
     if |b| > 2 then AlphabetChar(x2 % 64) else '=']
  }

  lemma {:induction false} FrontAlphabet(b: Bytes)
    requires b != []
    ensures FrontChars(b) == AlphabetGroup(b)
  {
    hide SextetChar, AlphabetChar;
    var x0 := b[0] as nat;
    var x1 := if |b| > 1 then b[1] as nat else 0;
    var x2 := if |b| > 2 then b[2] as nat else 0;
    ByteSextets(x0, x1, x2);
    SextetCharIsAlphabet(Sextet0(x0));
    SextetCharIsAlphabet(Sextet1(x0, x1));
    SextetCharIsAlphabet(Sextet2(x1, x2));
    SextetCharIsAlphabet(Sextet3(x2));
  }

  lemma {:induction false} EncodedLength(b: Bytes)
    ensures |Encode(b)| == (|b| + 2) / 3 * 4
    decreases |b|
  {
    hide Encode, FrontChars;
    EncodeNothing();
    if b != [] {
      EncodeFront(b);
      EncodedLength(if |b| > 2 then b[3..] else []);
    }
  }

  lemma {:induction false} SliceOf(front: string, rest: string, i: nat)
    requires |front| == 4
    ensures (front + rest)[..4] == front
    ensures 4 * i + 4 <= |rest| ==> (front + rest)[4 * i + 4..4 * i + 8] == rest[4 * i..4 * i + 4]
  {
  }

  /** The characters of an encoding, group by group: four for every three bytes or rest of them. */
  lemma {:induction false} EncodedGroup(b: Bytes, i: nat)
    requires 3 * i < |b|
    ensures |Encode(b)| == (|b| + 2) / 3 * 4 && 4 * i + 4 <= |Encode(b)|
    ensures Encode(b)[4 * i..4 * i + 4] == AlphabetGroup(b[3 * i..])
    decreases i
  {
    hide Encode, FrontChars, AlphabetGroup;
    EncodedLength(b);
    EncodeFront(b);
    var rest := if |b| > 2 then b[3..] else [];
    if i == 0 {
      FrontAlphabet(b);
      SliceOf(FrontChars(b), Encode(rest), 0);
      assert b[0..] == b;
    } else {
      EncodedGroup(rest, i - 1);
      SliceOf(FrontChars(b), Encode(rest), i - 1);
      assert rest[3 * (i - 1)..] == b[3 * i..];
    }
  }

  lemma {:induction false} EncodeNext(input: Bytes, before: string, rest: Bytes)
    requires rest != [] && Encode(input) == before + Encode(rest)
    ensures Encode(input) == before + FrontChars(rest) + Encode(if |rest| > 2 then rest[3..] else [])
  {
    hide Encode, FrontChars;
    EncodeFront(rest);
  }

  method Base64Encode(input: Bytes) returns (output: string)
    ensures output == Encode(input)
  {
    hide Encode, SextetChar, Sextet0, Sextet1, Sextet2, Sextet3;
    output := "";
    var i := 0;
    ghost var rest := input;
    assert "" + Encode(input) == Encode(input);
    while i < |input|
      invariant 0 <= i && rest == if i <= |input| then input[i..] else []
      invariant Encode(input) == output + Encode(rest)
    {
      var hasB1 := i + 1 < |input|;
      var hasB2 := i + 2 < |input|;
      var x0 := input[i] as nat;
      var x1 := if hasB1 then input[i + 1] as nat else 0;
      var x2 := if hasB2 then input[i + 2] as nat else 0;
      ghost var before := output;
      EncodeNext(input, output, rest);
      output := output + [SextetChar(Sextet0(x0))];
      output := output + [SextetChar(Sextet1(x0, x1))];
      output := output + [if hasB1 then SextetChar(Sextet2(x1, x2)) else '='];
      output := output + [if hasB2 then SextetChar(Sextet3(x2)) else '='];
      assert output == before + FrontChars(rest);
      rest := if |rest| > 2 then rest[3..] else [];
      i := i + 3;
    }
    assert rest == [];
    assert Encode([]) == "" by {
      EncodeNothing();
    }
  }

  lemma {:induction false} EncodeNothing()
    ensures Encode([]) == ""
  {
  }

  // ---------------------------------------------------------------- the validity scan

  /** Alphabet characters, then `n` padding characters. */
  ghost predicate PaddedWith(s: string, n: nat) {
    && n <= 2 && n <= |s|
    && (forall k | 0 <= k < |s| - n :: InAlphabet(s[k]))
    && (forall k | |s| - n <= k < |s| :: s[k] == '=')
  }

  ghost predicate ScanAccepts(s: string) {
    |s| % 4 == 0 && exists n: nat :: PaddedWith(s, n)
  }

  /** The scan; the source's last test, padding without data, cannot fire after the length test. */
  method RejectInvalidBase64(input: string) returns (r: Result<()>)
    ensures r == if ScanAccepts(input) then Ok(()) else Err(InvalidEncoding)
  {
    if |input| % 4 != 0 {
      return Err(InvalidEncoding);
    }
    var seenPadding := false;
    var padding := 0;
    for i := 0 to |input|
      invariant 0 <= padding <= 2 && padding <= i
      invariant seenPadding <==> padding > 0
      invariant PaddedWith(input[..i], padding)
    {
      var ch := input[i];
      if ch == '=' {
        seenPadding := true;
        padding := padding + 1;
        if padding > 2 {
          assert input[i - 2] == input[..i][i - 2] == '=';
          return Err(InvalidEncoding);
        }
        assert PaddedWith(input[..i + 1], padding);
        continue;
      }
      if seenPadding {
        assert input[i - 1] == input[..i][i - 1] == '=';
        return Err(InvalidEncoding);
      }
      if DecodeChar(ch) < 0 {
        return Err(InvalidEncoding);
      }
    }
    assert input[..|input|] == input;
    assert padding > 0 ==> |input| >= 4;
    return Ok(());
  }

  /** The same strings, group by group: padding only in the last one or two places of the last group. */
  predicate WellPadded(s: string) {
    if s == "" then true
    else
      && |s| >= 4 && InAlphabet(s[0]) && InAlphabet(s[1])
      && (InAlphabet(s[2]) || (|s| == 4 && s[2] == '=' && s[3] == '='))
      && (InAlphabet(s[3]) || (|s| == 4 && s[3] == '='))
      && WellPadded(s[4..])
  }

  lemma {:induction false} ScanIsWellPadded(s: string)
    ensures ScanAccepts(s) <==> WellPadded(s)
    decreases |s|
  {
    if |s| >= 4 {
      var t := s[4..];
      ScanIsWellPadded(t);
      if n: nat :| ScanAccepts(s) && PaddedWith(s, n) {
        if |s| > 4 {
          assert forall k | 0 <= k < |t| :: t[k] == s[k + 4];
          assert PaddedWith(t, n);
        } else {
          assert s[4..] == "";
        }
      }
      if WellPadded(s) {
        if |s| > 4 {
          var m: nat :| PaddedWith(t, m);
          assert forall k | 4 <= k < |s| :: s[k] == t[k - 4];
          assert PaddedWith(s, m);
        } else {
          assert PaddedWith(s, if s[2] == '=' then 2 else if s[3] == '=' then 1 else 0);
        }
      }
    } else if s == "" {
      assert PaddedWith(s, 0);
    }
  }

  // ---------------------------------------------------------------- decoding

  function PadSextet(ch: char): int {
    if ch == '=' then 0 else DecodeChar(ch)
  }

  /** The bytes of one group of four characters. */
  function DecodeGroup(g: string): (b: Bytes)
    requires |g| == 4 && WellPadded(g)
    ensures |b| == if g[2] == '=' then 1 else if g[3] == '=' then 2 else 3
  {
    var c0, c1, c2, c3 := DecodeChar(g[0]), DecodeChar(g[1]), PadSextet(g[2]), PadSextet(g[3]);
    [(c0 * 4 + c1 / 16) as byte]
    + (if g[2] != '=' then [(c1 % 16 * 16 + c2 / 4) as byte] else [])
    + (if g[3] != '=' then [(c2 % 4 * 64 + c3) as byte] else [])
  }

  function DecodeGroups(s: string): Bytes
    requires WellPadded(s)
  {
    if s == "" then [] else DecodeGroup(s[..4]) + DecodeGroups(s[4..])
  }

  lemma {:induction false} DecodeFront(s: string)
    requires WellPadded(s) && s != ""
    ensures |s| >= 4 && WellPadded(s[..4]) && WellPadded(s[4..])
    ensures InAlphabet(s[0]) && InAlphabet(s[1])
    ensures (s[2] == '=' || InAlphabet(s[2])) && (s[3] == '=' || InAlphabet(s[3]))
    ensures DecodeGroups(s) == DecodeGroup(s[..4]) + DecodeGroups(s[4..])
  {
    assert s[..4][4..] == "";
  }

  lemma {:induction false} DecodeNothing()
    ensures DecodeGroups("") == []
  {
  }

  /** Decoding: scan, decode the groups, and accept only if encoding gives the input back. */
  ghost function Decode(s: string): Result<Bytes> {
    ScanIsWellPadded(s);
    if !ScanAccepts(s) then Err(InvalidEncoding)
    else if Encode(DecodeGroups(s)) != s then Err(InvalidEncoding)
    else Ok(DecodeGroups(s))
  }

  method DecodeLoop(input: string) returns (output: Bytes)
    requires WellPadded(input)
    ensures output == DecodeGroups(input)
  {
    hide DecodeChar, DecodeGroups, WellPadded;
    output := [];
    var i := 0;
    assert input[0..] == input;
    while i < |input|
      invariant 0 <= i <= |input|
      invariant WellPadded(input[i..]) && DecodeGroups(input) == output + DecodeGroups(input[i..])
    {
      ghost var rest := input[i..];
      DecodeFront(rest);
      assert rest[4..] == input[i + 4..];
      var c0 := DecodeChar(input[i]);
      var c1 := DecodeChar(input[i + 1]);
      var c2 := if input[i + 2] == '=' then 0 else DecodeChar(input[i + 2]);
      var c3 := if input[i + 3] == '=' then 0 else DecodeChar(input[i + 3]);
      ghost var before := output;
      output := output + [(c0 * 4 + c1 / 16) as byte];
      if input[i + 2] != '=' {
        output := output + [(c1 % 16 * 16 + c2 / 4) as byte];
      }
      if input[i + 3] != '=' {
        output := output + [(c2 % 4 * 64 + c3) as byte];
      }
      assert output == before + DecodeGroup(rest[..4]);
      i := i + 4;
    }
    DecodeNothing();
    assert input[i..] == "";
  }

  method Base64Decode(input: string) returns (r: Result<Bytes>)
    ensures r == Decode(input)
  {
    var scanned := RejectInvalidBase64(input);
    if scanned.Err? {
      return Err(scanned.error);
    }
    ScanIsWellPadded(input);
    if input == "" {
      return Ok([]);
    }
    var output := DecodeLoop(input);
    var again := Base64Encode(output);
    if again != input {
      return Err(InvalidEncoding);
    }
    return Ok(output);
  }

  // ---------------------------------------------------------------- exact acceptance

  lemma {:induction false} SplitBytes(x0: nat, x1: nat, x2: nat)
    requires x0 < 0x100 && x1 < 0x100 && x2 < 0x100
    ensures var c0, c1, c2, c3 := Sextet0(x0), Sextet1(x0, x1), Sextet2(x1, x2), Sextet3(x2);
            c0 * 4 + c1 / 16 == x0 && c1 % 16 * 16 + c2 / 4 == x1 && c2 % 4 * 64 + c3 == x2
  {
    ByteSextets(x0, x1, x2);
  }

  lemma {:induction false} SextetCharDecodes(v: nat)
    requires v < 64
    ensures DecodeChar(SextetChar(v)) == v && SextetChar(v) != '='
  {
  }

  /** Encoding then decoding the bytes at the front. */
  lemma {:induction false} FrontRoundTrip(b: Bytes)
    requires b != []
    ensures var g := FrontChars(b);
            && WellPadded(g) && DecodeGroup(g) == (if |b| > 2 then b[..3] else b)
            && (|b| > 2 ==> InAlphabet(g[2]) && InAlphabet(g[3]))
  {
    hide SextetChar, DecodeChar, Sextet0, Sextet1, Sextet2, Sextet3;
    var g := FrontChars(b);
    var x0 := b[0] as nat;
    var x1 := if |b| > 1 then b[1] as nat else 0;
    var x2 := if |b| > 2 then b[2] as nat else 0;
    SextetCharDecodes(Sextet0(x0));
    SextetCharDecodes(Sextet1(x0, x1));
    SextetCharDecodes(Sextet2(x1, x2));
    SextetCharDecodes(Sextet3(x2));
    SplitBytes(x0, x1, x2);
    assert g[4..] == "";
  }

  /** What encoding produces is accepted by the scan and decodes to what was encoded. */
  lemma {:induction false} DecodeOfEncode(b: Bytes)
    ensures WellPadded(Encode(b)) && DecodeGroups(Encode(b)) == b
    decreases |b|
  {
    hide FrontChars, SextetChar, DecodeChar, DecodeGroup;
    if b != [] {
      var rest := if |b| > 2 then b[3..] else [];
      EncodeFront(b);
      FrontRoundTrip(b);
      DecodeOfEncode(rest);
      var g, s := FrontChars(b), Encode(b);
      assert s[..4] == g && s[4..] == Encode(rest);
      assert |b| > 2 ==> b == b[..3] + rest;
      if |b| > 2 {
        assert s[2] == g[2] && s[3] == g[3] && s[0] == g[0] && s[1] == g[1];
      } else {
        EncodeNothing();
        assert s == g;
      }
    }
  }

  /** Exact acceptance: a string decodes to `b` if and only if it is the encoding of `b`. */
  lemma {:induction false} Base64Exact(s: string, b: Bytes)
    ensures Decode(s) == Ok(b) <==> s == Encode(b)
    ensures Decode(s).Err? ==> Decode(s) == Err(InvalidEncoding)
  {
    DecodeOfEncode(b);
    ScanIsWellPadded(s);
  }

  /** The bits of the last group that carry no data. */
  ghost predicate UnusedBitsZero(s: string) {
    var n := |s|;
    if n >= 4 && s[n - 1] == '=' && s[n - 2] == '=' then DecodeChar(s[n - 3]) % 16 == 0
    else if n >= 4 && s[n - 1] == '=' then DecodeChar(s[n - 2]) % 4 == 0
    else true
  }

  /** A scanned string fails the canonical-form check exactly when unused bits are set. */
  lemma {:induction false} CanonicalFormCheck(s: string)
    requires ScanAccepts(s)
    ensures Decode(s).Err? <==> !UnusedBitsZero(s)
  {
    ScanIsWellPadded(s);
    EncodeOfDecode(s);
  }

  lemma {:induction false} EncodeOfDecode(s: string)
    requires WellPadded(s)
    ensures Encode(DecodeGroups(s)) == s <==> UnusedBitsZero(s)
    decreases |s|
  {
    hide FrontChars, DecodeChar, DecodeGroup, Encode;
    EncodeNothing();
    if s != "" {
      var g, t := s[..4], s[4..];
      DecodeFront(s);
      EncodeOfDecode(t);
      GroupCanonical(g);
      var b, c := DecodeGroup(g), DecodeGroups(t);
      EncodeFront(b + c);
      assert s == g + t;
      if t == "" {
        DecodeNothing();
        assert b + c == b && s == g;
      } else {
        assert |b| == 3 by {
          SameSextet(0, g[2]);
          SameSextet(0, g[3]);
        }
        assert (b + c)[3..] == c && FrontChars(b + c) == FrontChars(b) by {
          FrontCharsOfThree(b, c);
        }
        assert Encode(b + c)[..4] == FrontChars(b) == g && Encode(b + c)[4..] == Encode(c);
        assert t[|t| - 1] == s[|s| - 1] && t[|t| - 2] == s[|s| - 2] && t[|t| - 3] == s[|s| - 3];
      }
    }
  }

  lemma {:induction false} FrontCharsOfThree(b: Bytes, c: Bytes)
    requires |b| == 3
    ensures FrontChars(b + c) == FrontChars(b)
  {
  }

  /** Encoding what one group decodes to gives the group back exactly when its unused bits are zero. */
  lemma {:induction false} GroupCanonical(g: string)
    requires |g| == 4 && WellPadded(g)
    ensures FrontChars(DecodeGroup(g)) == g <==> UnusedBitsZero(g)
  {
    hide SextetChar, DecodeChar;
    var c0, c1, c2, c3 := DecodeChar(g[0]), DecodeChar(g[1]), PadSextet(g[2]), PadSextet(g[3]);
    SameSextet(c0, g[0]);
    SameSextet(c1 / 16 * 16, g[1]);
    SameSextet(c1, g[1]);
    SameSextet(c2 / 4 * 4, g[2]);
    SameSextet(c2, g[2]);
    SameSextet(c3, g[3]);
    JoinSextets(c0, c1, c2, c3);
    SextetCharDecodes(c1 / 16 * 16);
  }

  lemma {:induction false} SameSextet(v: nat, ch: char)
    requires v < 64
    ensures InAlphabet(ch) ==> (SextetChar(v) == ch <==> v == DecodeChar(ch))
    ensures InAlphabet(ch) ==> ch != '='
  {
  }

  lemma {:induction false} JoinSextets(c0: nat, c1: nat, c2: nat, c3: nat)
    requires c0 < 64 && c1 < 64 && c2 < 64 && c3 < 64
    ensures var x0, x1, x2 := c0 * 4 + c1 / 16, c1 % 16 * 16 + c2 / 4, c2 % 4 * 64 + c3;
            && x0 / 4 % 64 == c0
            && (x0 * 16 + x1 / 16) % 64 == c1 && (x0 * 16) % 64 == c1 / 16 * 16
            && (x1 * 4 + x2 / 64) % 64 == c2 && (x1 * 4) % 64 == c2 / 4 * 4
            && x2 % 64 == c3
  {
    var x0, x1, x2 := c0 * 4 + c1 / 16, c1 % 16 * 16 + c2 / 4, c2 % 4 * 64 + c3;
    assert x1 / 16 == c1 % 16 && x2 / 64 == c2 % 4;
    assert x0 * 16 == 64 * c0 + c1 / 16 * 16;
    assert x1 * 4 == 64 * (c1 % 16) + c2 / 4 * 4;
  }

  /** The test vectors of section 10 of RFC 4648 that fit one group. */
  lemma {:induction false} Rfc4648ShortVectors()
    ensures Encode([]) == ""
    ensures Encode([0x66]) == "Zg=="
    ensures Encode([0x66, 0x6F]) == "Zm8="
    ensures Encode([0x66, 0x6F, 0x6F]) == "Zm9v"
  {
    assert Group(0x66, 0, 0) == 0x66_0000 && Group(0x66, 0x6F, 0) == 0x66_6F00;
  }

  /** And those of two groups, from the encodings of their last bytes. */
  lemma {:induction false} Rfc4648LongVectors()
    ensures Encode([0x66, 0x6F, 0x6F, 0x62]) == "Zm9vYg=="
    ensures Encode([0x66, 0x6F, 0x6F, 0x62, 0x61]) == "Zm9vYmE="
    ensures Encode([0x66, 0x6F, 0x6F, 0x62, 0x61, 0x72]) == "Zm9vYmFy"
  {
    hide Encode;
    LastGroups();
    TwoGroups([0x62]);
    TwoGroups([0x62, 0x61]);
    TwoGroups([0x62, 0x61, 0x72]);
    assert [0x66, 0x6F, 0x6F] + [0x62] == [0x66, 0x6F, 0x6F, 0x62];
    assert [0x66, 0x6F, 0x6F] + [0x62, 0x61] == [0x66, 0x6F, 0x6F, 0x62, 0x61];
    assert [0x66, 0x6F, 0x6F] + [0x62, 0x61, 0x72] == [0x66, 0x6F, 0x6F, 0x62, 0x61, 0x72];
  }

  lemma {:induction false} LastGroups()
    ensures Encode([0x62]) == "Yg=="
    ensures Encode([0x62, 0x61]) == "YmE="
    ensures Encode([0x62, 0x61, 0x72]) == "YmFy"
  {
    assert Group(0x62, 0, 0) == 0x62_0000 && Group(0x62, 0x61, 0) == 0x62_6100;
    assert GroupChars(0x62_6172) == "YmFy";
    assert Encode([]) == "";
  }

  lemma {:induction false} TwoGroups(rest: Bytes)
    ensures Encode([0x66, 0x6F, 0x6F] + rest) == "Zm9v" + Encode(rest)
  {
    hide Encode;
    var b: Bytes := [0x66, 0x6F, 0x6F] + rest;
    EncodeFront(b);
    assert b[3..] == rest;
  }
}
