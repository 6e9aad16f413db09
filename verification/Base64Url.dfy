/** Base64URL without padding (section 5 of RFC 4648), built on the strict Base64 codec. */
module Base64Url {
  import opened ByteStrings
  import opened Base64

  function ToUrl(ch: char): char {
    if ch == '+' then '-' else if ch == '/' then '_' else ch
  }

  function FromUrl(ch: char): char {
    if ch == '-' then '+' else if ch == '_' then '/' else ch
  }

  predicate IsUrlChar(ch: char) {
    'A' <= ch <= 'Z' || 'a' <= ch <= 'z' || '0' <= ch <= '9' || ch == '-' || ch == '_'
  }

  function ToUrlAll(s: string): (r: string)
    ensures |r| == |s|
  {
    seq(|s|, k requires 0 <= k < |s| => ToUrl(s[k]))
  }

  function FromUrlAll(s: string): (r: string)
    ensures |r| == |s|
  {
    seq(|s|, k requires 0 <= k < |s| => FromUrl(s[k]))
  }

  function Pads(n: nat): (r: string)
    ensures |r| == n
  {
    seq(n, k => '=')
  }

  function Stripped(s: string): string {
    if s != "" && s[|s| - 1] == '=' then Stripped(s[..|s| - 1]) else s
  }

  /** The Base64 encoding in the URL alphabet, without its padding. */
  function UrlEncode(b: Bytes): string {
    Stripped(ToUrlAll(Encode(b)))
  }

  method Base64UrlEncode(input: Bytes) returns (output: string)
    ensures output == UrlEncode(input)
  {
    hide Encode, Stripped;
    var encoded := Base64Encode(input);
    output := encoded;
    for i := 0 to |output|
      invariant |output| == |encoded|
      invariant forall k | 0 <= k < i :: output[k] == ToUrl(encoded[k])
      invariant forall k | i <= k < |encoded| :: output[k] == encoded[k]
    {
      if output[i] == '+' {
        output := output[i := '-'];
      } else if output[i] == '/' {
        output := output[i := '_'];
      }
    }
    assert output == ToUrlAll(encoded);
    while output != "" && output[|output| - 1] == '='
      invariant Stripped(output) == UrlEncode(input)
      decreases |output|
    {
      StrippedStep(output);
      output := output[..|output| - 1];
    }
    StrippedStep(output);
  }

  lemma {:induction false} StrippedStep(s: string)
    ensures Stripped(s) == if s != "" && s[|s| - 1] == '=' then Stripped(s[..|s| - 1]) else s
  {
  }

  ghost predicate UrlScanAccepts(s: string) {
    |s| % 4 != 1 && forall k | 0 <= k < |s| :: IsUrlChar(s[k])
  }

  method RejectInvalidBase64Url(input: string) returns (r: Result<()>)
    ensures r == if UrlScanAccepts(input) then Ok(()) else Err(InvalidEncoding)
  {
    if |input| % 4 == 1 {
      return Err(InvalidEncoding);
    }
    for i := 0 to |input|
      invariant forall k | 0 <= k < i :: IsUrlChar(input[k])
    {
      if !IsUrlChar(input[i]) {
        return Err(InvalidEncoding);
      }
    }
    return Ok(());
  }

  /** The Base64 string the decoder hands on: standard alphabet, padded to a multiple of four. */
  function Padded(s: string): string {
    FromUrlAll(s) + Pads((4 - |s| % 4) % 4)
  }

  /** Decoding: scan, translate and pad, decode strictly, and accept only if encoding gives the input back. */
  ghost function UrlDecode(s: string): Result<Bytes> {
    if !UrlScanAccepts(s) then Err(InvalidEncoding)
    else match Decode(Padded(s))
      case Err(e) => Err(e)
      case Ok(b) => if UrlEncode(b) != s then Err(InvalidEncoding) else Ok(b)
  }

  method Base64UrlDecode(input: string) returns (r: Result<Bytes>)
    ensures r == UrlDecode(input)
  {
    hide Decode, UrlEncode;
    var scanned := RejectInvalidBase64Url(input);
    if scanned.Err? {
      return Err(scanned.error);
    }
    var padded := "";
    for i := 0 to |input|
      invariant padded == FromUrlAll(input)[..i]
    {
      if input[i] == '-' {
        padded := padded + ['+'];
      } else if input[i] == '_' {
        padded := padded + ['/'];
      } else {
        padded := padded + [input[i]];
      }
    }
    assert padded == FromUrlAll(input) + Pads(0);
    ghost var n := 0;
    while |padded| % 4 != 0
      invariant n <= (4 - |input| % 4) % 4 && padded == FromUrlAll(input) + Pads(n)
      decreases 4 - n
    {
      padded := padded + ['='];
      n := n + 1;
      assert padded == FromUrlAll(input) + Pads(n);
    }
    assert padded == Padded(input);
    r := Base64Decode(padded);
    if r.Err? {
      return;
    }
    var again := Base64UrlEncode(r.value);
    if again != input {
      return Err(InvalidEncoding);
    }
  }

  // ---------------------------------------------------------------- exact acceptance

  lemma {:induction false} StrippedOfPadded(body: string, n: nat)
    requires body == "" || body[|body| - 1] != '='
    ensures Stripped(body + Pads(n)) == body
  {
    if n == 0 {
      assert body + Pads(0) == body;
    } else {
      assert (body + Pads(n))[..|body| + n - 1] == body + Pads(n - 1);
      StrippedOfPadded(body, n - 1);
    }
  }

  /** The canonical-form check of the outer decoder can never fire: the inner decoder already forces it. */
  lemma {:induction false} OuterCheckIsRedundant(s: string, b: Bytes)
    requires UrlScanAccepts(s) && Decode(Padded(s)) == Ok(b)
    ensures UrlEncode(b) == s
  {
    hide Decode, Encode, Stripped;
    Base64Exact(Padded(s), b);
    var n := (4 - |s| % 4) % 4;
    forall k | 0 <= k < |s|
      ensures ToUrl(FromUrl(s[k])) == s[k] && s[k] != '='
    {
    }
    assert ToUrlAll(Padded(s)) == s + Pads(n);
    StrippedOfPadded(s, n);
  }

  /** An encoding is its alphabet characters followed by at most two padding characters. */
  lemma {:induction false} EncodingShape(b: Bytes) returns (n: nat)
    ensures PaddedWith(Encode(b), n) && |Encode(b)| % 4 == 0
  {
    hide Encode;
    DecodeOfEncode(b);
    ScanIsWellPadded(Encode(b));
    n :| PaddedWith(Encode(b), n);
  }

  /** Decoding what URL encoding produces hands exactly the padded encoding on. */
  lemma {:induction false} PaddedOfUrlEncode(b: Bytes)
    ensures UrlScanAccepts(UrlEncode(b)) && Padded(UrlEncode(b)) == Encode(b)
  {
    hide Encode, Stripped;
    var n := EncodingShape(b);
    var e := Encode(b);
    var body := e[..|e| - n];
    forall k | 0 <= k < |body|
      ensures IsUrlChar(ToUrl(body[k])) && FromUrl(ToUrl(body[k])) == body[k] && ToUrl(body[k]) != '='
    {
      assert InAlphabet(e[k]);
    }
    var url := ToUrlAll(body);
    assert ToUrlAll(e) == url + Pads(n);
    StrippedOfPadded(url, n);
    assert FromUrlAll(url) == body;
    assert (4 - |url| % 4) % 4 == n;
    assert e == body + Pads(n);
  }

  /** Bijection: a string decodes to `b` if and only if it is the URL encoding of `b`. */
  lemma {:induction false} Base64UrlExact(s: string, b: Bytes)
    ensures UrlDecode(s) == Ok(b) <==> s == UrlEncode(b)
    ensures UrlDecode(s).Err? ==> UrlDecode(s) == Err(InvalidEncoding)
  {
    hide Decode, Encode, UrlEncode;
    PaddedOfUrlEncode(b);
    Base64Exact(Padded(s), b);
    if UrlScanAccepts(s) && Decode(Padded(s)).Ok? {
      OuterCheckIsRedundant(s, Decode(Padded(s)).value);
    }
    Base64Exact(Padded(UrlEncode(b)), b);
  }

  const URL_ALPHABET: string := LETTERS + "0123456789" + "-_"

  lemma {:induction false} UrlCharPlace(ch: char) returns (v: nat)
    requires IsUrlChar(ch)
    ensures v < 64 && FromUrl(ch) == ALPHABET[v] && ch == URL_ALPHABET[v]
  {
    v := DecodeChar(FromUrl(ch));
    SextetCharIsAlphabet(v);
    if v < 62 {
      assert URL_ALPHABET[v] == (LETTERS + "0123456789")[v] == ALPHABET[v];
    }
  }

  /**
   * The characters of a URL encoding: four for three bytes, none for absent ones, each at the
   * place in the URL alphabet that the Base64 character has in the standard one.
   */
  lemma {:induction false} UrlCharacters(b: Bytes, k: nat) returns (v: nat)
    requires k < |UrlEncode(b)|
    ensures |UrlEncode(b)| == (4 * |b| + 2) / 3 && k < |Encode(b)|
    ensures v < 64 && Encode(b)[k] == ALPHABET[v] && UrlEncode(b)[k] == URL_ALPHABET[v]
  {
    hide Encode, UrlEncode, IsUrlChar, FromUrl;
    PaddedOfUrlEncode(b);
    UrlLength(b);
    assert Encode(b)[k] == FromUrl(UrlEncode(b)[k]);
    v := UrlCharPlace(UrlEncode(b)[k]);
  }

  lemma {:induction false} UrlLength(b: Bytes)
    ensures |UrlEncode(b)| == (4 * |b| + 2) / 3
  {
    hide Encode, UrlEncode, AlphabetChar;
    PaddedOfUrlEncode(b);
    var u, e := UrlEncode(b), Encode(b);
    assert e == FromUrlAll(u) + Pads((4 - |u| % 4) % 4);
    if b == [] {
      EncodeNothing();
    } else {
      var i := (|b| - 1) / 3;
      EncodedGroup(b, i);
      var g := e[4 * i..4 * i + 4];
      forall k | 0 <= k < |e|
        ensures e[k] == '=' <==> k >= |u|
      {
        if k < |u| {
          assert IsUrlChar(u[k]) && e[k] == FromUrl(u[k]);
        }
      }
      assert g[0] == e[4 * i] && g[1] == e[4 * i + 1] && g[2] == e[4 * i + 2] && g[3] == e[4 * i + 3];
      PadsOfGroup(b[3 * i..]);
    }
  }

  lemma {:induction false} PadsOfGroup(b: Bytes)
    requires b != []
    ensures AlphabetGroup(b)[0] != '=' && AlphabetGroup(b)[1] != '='
    ensures AlphabetGroup(b)[2] == '=' <==> |b| == 1
    ensures AlphabetGroup(b)[3] == '=' <==> |b| <= 2
  {
    hide AlphabetChar;
    forall v: nat | v < 64
      ensures AlphabetChar(v) != '='
    {
      SextetCharIsAlphabet(v);
      SextetCharDecodes(v);
    }
  }
}
