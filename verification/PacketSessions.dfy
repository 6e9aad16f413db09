/**
 * Packet sessions with rejected calls: what each call answers after any calls before it, when an
 * object has a state, and that rejected calls put in anywhere change nothing.
 */
module PacketSessions {
  import opened ByteStrings
  import opened Gcm
  import opened PacketStream

  /** The bytes of a packet: "SKT1" and version 1, nonce, ciphertext, and a tag over header, AAD and ciphertext. */
  lemma {:induction false} PacketLayout(c: Cipher, key: Key, nonce: Nonce, aad: Bytes, plain: Bytes)
    ensures var packet, n := Packet(c, key, nonce, aad, plain), |plain|;
            && |packet| == n + 33
            && packet[..5] == [0x53, 0x4B, 0x54, 0x31, 1] && packet[5..17] == nonce
            && FlippedBy(c, key, nonce, 0, plain, packet[17..17 + n])
            && packet[17 + n..] == c.tag(key, nonce, [0x53, 0x4B, 0x54, 0x31, 1] + aad, packet[17..17 + n])
  {
    hide FlippedBy, Mask;
    var packet, text := Packet(c, key, nonce, aad, plain), Mask(c, key, nonce, 0, plain);
    MaskFlips(c, key, nonce, 0, plain, text);
    assert packet[..17] == Prefix(nonce) && packet[17..17 + |plain|] == text;
    assert packet[..5] == packet[..17][..5] && packet[5..17] == packet[..17][5..];
  }

  /** A byte string that a decryptor may begin with. */
  predicate GoodPrefix(p: Bytes) {
    |p| == 17 && p[..5] == [0x53, 0x4B, 0x54, 0x31, 1]
  }

  lemma {:induction false} GoodPrefixIsValid(p: Bytes)
    ensures GoodPrefix(p) <==> ValidPrefix(p)
  {
    if |p| == 17 {
      assert p[..5] == p[..4] + [p[4]];
      assert GoodPrefix(p) ==> p[..4] == p[..5][..4] && p[4] == p[..5][4];
    }
  }

  // ---------------------------------------------------------------- decryptor

  lemma {:induction false} DecryptorHasState(c: Cipher, s: Option<Impl>, h: Reading, calls: seq<DecryptorCall>)
    ensures DecryptorRun(c, s, h, calls).0 == None <==> s == None || DMoveAway in calls
    decreases |calls|
  {
    if calls != [] {
      var (next, reply) := DecryptorStep(c, s, calls[0]);
      DecryptorHasState(c, next, ObserveDecryptor(h, calls[0], reply), calls[1..]);
    }
  }

  /**
   * A decryptor after any calls: it has no state exactly if it was moved from; otherwise it is
   * ready until a `begin` succeeded, then active until a `finalize` was not refused.
   */
  lemma {:induction false} DecryptorState(c: Cipher, key: Key, aad: Bytes, calls: seq<DecryptorCall>)
    ensures var (s, h) := DecryptorRun(c, Fresh(key, aad), NewReading(), calls);
            && (s == None <==> DMoveAway in calls)
            && (DMoveAway !in calls ==>
                s.value.phase == if h.begins == 0 then Ready else if h.ended then Finished else Active)
  {
    hide DecryptorStep, ObserveDecryptor;
    DecryptorHasState(c, Fresh(key, aad), NewReading(), calls);
    DecryptorRunKeeps(c, key, aad, Fresh(key, aad), NewReading(), calls);
  }

  /** What a decryptor answers to a call, given which calls before it succeeded and what it took in. */
  ghost predicate DecryptorAnswers(
      c: Cipher, key: Key, aad: Bytes, moved: bool, h: Reading, call: DecryptorCall, reply: Result<Bytes>)
  {
    var active := !moved && h.begins == 1 && !h.ended && |h.wire| >= 17;
    match call
    case DBegin(prefix) =>
      reply == if moved || h.begins == 1 then Err(InvalidInput)
               else if GoodPrefix(prefix) then Ok([])
               else Err(InvalidPacket)
    case DUpdate(text) =>
      if !active || |text| > 0x7FFF_FFFF then reply == Err(InvalidInput)
      else reply.Ok? && FlippedBy(c, key, h.wire[5..17], |h.fed|, text, reply.value)
    case DFinalize(tag) =>
      reply == if !active then Err(InvalidInput)
               else if |tag| != 16 then Err(InvalidPacket)
               else if tag != c.tag(key, h.wire[5..17], [0x53, 0x4B, 0x54, 0x31, 1] + aad, h.fed)
               then Err(AuthenticationFailed)
               else Ok([])
    case DMoveAway => reply == Ok([])
  }

  lemma {:induction false} DecryptorReply(
      c: Cipher, key: Key, aad: Bytes, calls: seq<DecryptorCall>, call: DecryptorCall)
    ensures var (s, h) := DecryptorRun(c, Fresh(key, aad), NewReading(), calls);
            DecryptorAnswers(c, key, aad, DMoveAway in calls, h, call, DecryptorStep(c, s, call).1)
  {
    hide Mask, FlippedBy, ObserveDecryptor, DecryptorRun;
    DecryptorState(c, key, aad, calls);
    DecryptorRunKeeps(c, key, aad, Fresh(key, aad), NewReading(), calls);
    var (s, h) := DecryptorRun(c, Fresh(key, aad), NewReading(), calls);
    match call
    case DBegin(prefix) => GoodPrefixIsValid(prefix);
    case DUpdate(text) =>
      if s.Some? && s.value.context.Some? {
        var nonce := WireNonce(h.wire);
        MaskFlips(c, key, nonce, |h.fed|, text, Mask(c, key, nonce, |h.fed|, text));
      }
    case _ =>
  }

  lemma {:induction false} DecryptorRunSplit(
      c: Cipher, s: Option<Impl>, h: Reading, a: seq<DecryptorCall>, b: seq<DecryptorCall>)
    ensures var (mid, seen) := DecryptorRun(c, s, h, a);
            DecryptorRun(c, s, h, a + b) == DecryptorRun(c, mid, seen, b)
    decreases |a|
  {
    hide DecryptorStep, ObserveDecryptor;
    if a == [] {
      assert a + b == b;
    } else {
      assert (a + b)[1..] == a[1..] + b;
      var (next, reply) := DecryptorStep(c, s, a[0]);
      DecryptorRunSplit(c, next, ObserveDecryptor(h, a[0], reply), a[1..], b);
    }
  }

  /** Calls that come too early, or with a bad prefix. */
  ghost predicate TooEarly(calls: seq<DecryptorCall>) {
    forall k | 0 <= k < |calls| :: !calls[k].DMoveAway? && (calls[k].DBegin? ==> !GoodPrefix(calls[k].prefix))
  }

  /** Calls between `begin` and `finalize`: updates, and further attempts to begin. */
  ghost predicate Midway(calls: seq<DecryptorCall>) {
    forall k | 0 <= k < |calls| :: calls[k].DBegin? || calls[k].DUpdate?
  }

  /** The texts of the updates that fit a backend call. */
  function Texts(calls: seq<DecryptorCall>): Bytes {
    if calls == [] then []
    else if calls[0].DUpdate? && |calls[0].text| <= 0x7FFF_FFFF then calls[0].text + Texts(calls[1..])
    else Texts(calls[1..])
  }

  lemma {:induction false} TooEarlyChangesNothing(c: Cipher, key: Key, aad: Bytes, calls: seq<DecryptorCall>)
    requires TooEarly(calls)
    ensures DecryptorRun(c, Fresh(key, aad), NewReading(), calls) == (Fresh(key, aad), NewReading())
    decreases |calls|
  {
    if calls != [] {
      if calls[0].DBegin? {
        GoodPrefixIsValid(calls[0].prefix);
      }
      TooEarlyChangesNothing(c, key, aad, calls[1..]);
    }
  }

  lemma {:induction false} MidwayFeeds(c: Cipher, i: Impl, context: GcmContext, h: Reading, calls: seq<DecryptorCall>)
    requires Midway(calls) && i.phase == Active && i.context == Some(context)
    ensures var (s, seen) := DecryptorRun(c, Some(i), h, calls);
            && s == Some(i.(context := Some(context.Feed(Texts(calls)))))
            && seen == h.(wire := h.wire + Texts(calls), fed := h.fed + Texts(calls), out := seen.out)
    decreases |calls|
  {
    hide Mask;
    if calls == [] {
      assert context.text + [] == context.text && h.wire + [] == h.wire && h.fed + [] == h.fed;
    } else if calls[0].DUpdate? && |calls[0].text| <= 0x7FFF_FFFF {
      var text, rest := calls[0].text, Texts(calls[1..]);
      DecryptorFeeds(c, i, context, text);
      var (next, reply) := DecryptorStep(c, Some(i), calls[0]);
      MidwayFeeds(c, next.value, context.Feed(text), ObserveDecryptor(h, calls[0], reply), calls[1..]);
      assert context.text + text + rest == context.text + (text + rest);
      assert h.wire + text + rest == h.wire + (text + rest) && h.fed + text + rest == h.fed + (text + rest);
    } else {
      MidwayFeeds(c, i, context, h, calls[1..]);
    }
  }

  lemma {:induction false} AfterwardsRefused(c: Cipher, i: Impl, h: Reading, calls: seq<DecryptorCall>)
    requires i.phase == Finished && DMoveAway !in calls
    ensures DecryptorRun(c, Some(i), h, calls) == (Some(i), h)
    decreases |calls|
  {
    if calls != [] {
      assert calls[0] in calls;
      AfterwardsRefused(c, i, h, calls[1..]);
    }
  }

  /**
   * A session with rejected calls anywhere: whatever comes before `begin` too early or with a bad
   * prefix, in between, or afterwards, a packet fed in any pieces gives its text out.
   */
  lemma {:induction false} AnySessionDecrypts(
      c: Cipher, key: Key, aad: Bytes, nonce: Nonce, plain: Bytes,
      before: seq<DecryptorCall>, middle: seq<DecryptorCall>, afterwards: seq<DecryptorCall>)
    requires TooEarly(before) && Midway(middle) && DMoveAway !in afterwards
    requires FlippedBy(c, key, nonce, 0, plain, Texts(middle))
    ensures var header := [0x53, 0x4B, 0x54, 0x31, 1];
            var tag := c.tag(key, nonce, header + aad, Texts(middle));
            var calls := before + ([DBegin(header + nonce)] + (middle + ([DFinalize(tag)] + afterwards)));
            var h := DecryptorRun(c, Fresh(key, aad), NewReading(), calls).1;
            h.begins == 1 && h.finals == 1 && h.out == plain && h.wire == Packet(c, key, nonce, aad, plain)
  {
    hide Mask, FlippedBy, DecryptorRun, DecryptorStep;
    var text := Texts(middle);
    MaskFlips(c, key, nonce, 0, plain, text);
    var header: Bytes := [0x53, 0x4B, 0x54, 0x31, 1];
    assert HEADER == header;
    var tag := c.tag(key, nonce, header + aad, text);
    var ending := [DFinalize(tag)] + afterwards;
    var session := [DBegin(header + nonce)] + (middle + ending);
    TooEarlyChangesNothing(c, key, aad, before);
    DecryptorRunSplit(c, Fresh(key, aad), NewReading(), before, session);
    BeginWithPrefix(c, key, aad, nonce);
    var context := GcmContext(key, nonce, header + aad, []);
    var i := Impl(key, aad, Some(context), Active);
    var h := NewReading().(begins := 1, wire := Prefix(nonce));
    assert [] + Prefix(nonce) == Prefix(nonce);
    DecryptorRunFirst(c, Fresh(key, aad), NewReading(), DBegin(Prefix(nonce)), middle + ending);
    MidwayFeeds(c, i, context, h, middle);
    DecryptorRunSplit(c, Some(i), h, middle, ending);
    var (s, seen) := DecryptorRun(c, Some(i), h, middle);
    assert context.Feed(text).text == text;
    DecryptorAccepts(c, s.value, context.Feed(text), tag);
    DecryptorRunFirst(c, s, seen, DFinalize(tag), afterwards);
    AfterwardsRefused(c, s.value.(context := None, phase := Finished),
                      ObserveDecryptor(seen, DFinalize(tag), Ok([])), afterwards);
    DecryptorLifecycle(c, key, aad, before + session);
    PacketsOpenAlike(c, key, nonce, aad, plain, DecryptorRun(c, Fresh(key, aad), NewReading(), before + session).1);
  }

  lemma {:induction false} DecryptorRunFirst(
      c: Cipher, s: Option<Impl>, h: Reading, call: DecryptorCall, rest: seq<DecryptorCall>)
    ensures var (next, reply) := DecryptorStep(c, s, call);
            DecryptorRun(c, s, h, [call] + rest) == DecryptorRun(c, next, ObserveDecryptor(h, call, reply), rest)
  {
    hide DecryptorStep, ObserveDecryptor;
    assert ([call] + rest)[1..] == rest;
  }

  // ---------------------------------------------------------------- encryptor

  lemma {:induction false} EncryptorHasState(c: Cipher, s: Option<Impl>, h: Session, calls: seq<EncryptorCall>)
    ensures EncryptorRun(c, s, h, calls).0 == None <==> s == None || EMoveAway in calls
    decreases |calls|
  {
    if calls != [] {
      var (next, reply) := EncryptorStep(c, s, calls[0]);
      EncryptorHasState(c, next, ObserveEncryptor(h, calls[0], reply), calls[1..]);
    }
  }

  /** An encryptor after any calls, likewise. */
  lemma {:induction false} EncryptorState(c: Cipher, key: Key, aad: Bytes, calls: seq<EncryptorCall>)
    ensures var (s, h) := EncryptorRun(c, Fresh(key, aad), NewSession(), calls);
            && (s == None <==> EMoveAway in calls)
            && (EMoveAway !in calls ==>
                s.value.phase == if h.begins == 0 then Ready else if h.finals == 1 then Finished else Active)
  {
    hide EncryptorStep, ObserveEncryptor, Packet, Mask;
    EncryptorHasState(c, Fresh(key, aad), NewSession(), calls);
    EncryptorRunKeeps(c, key, aad, Fresh(key, aad), NewSession(), calls);
  }

  /** What an encryptor answers to a call, given which calls before it succeeded. */
  ghost predicate EncryptorAnswers(
      c: Cipher, key: Key, aad: Bytes, moved: bool, h: Session, call: EncryptorCall, reply: Result<Bytes>)
  {
    var active := !moved && h.begins == 1 && h.finals == 0;
    match call
    case EBegin(entropy) =>
      reply == if moved || h.begins == 1 then Err(InvalidInput)
               else if entropy == None then Err(BackendFailure)
               else Ok([0x53, 0x4B, 0x54, 0x31, 1] + entropy.value)
    case EUpdate(plain) =>
      if !active || |plain| > 0x7FFF_FFFF then reply == Err(InvalidInput)
      else reply.Ok? && FlippedBy(c, key, h.nonce, |h.fed|, plain, reply.value)
    case EFinalize =>
      if !active then reply == Err(InvalidInput)
      else
        exists text: Bytes :: FlippedBy(c, key, h.nonce, 0, h.fed, text)
          && reply == Ok(c.tag(key, h.nonce, [0x53, 0x4B, 0x54, 0x31, 1] + aad, text))
    case EMoveAway => reply == Ok([])
  }

  lemma {:induction false} EncryptorReply(
      c: Cipher, key: Key, aad: Bytes, calls: seq<EncryptorCall>, call: EncryptorCall)
    ensures var (s, h) := EncryptorRun(c, Fresh(key, aad), NewSession(), calls);
            EncryptorAnswers(c, key, aad, EMoveAway in calls, h, call, EncryptorStep(c, s, call).1)
  {
    hide Mask, FlippedBy, ObserveEncryptor, EncryptorRun;
    EncryptorState(c, key, aad, calls);
    EncryptorRunKeeps(c, key, aad, Fresh(key, aad), NewSession(), calls);
    var (s, h) := EncryptorRun(c, Fresh(key, aad), NewSession(), calls);
    var text := Mask(c, key, h.nonce, 0, h.fed);
    MaskFlips(c, key, h.nonce, 0, h.fed, text);
    if call.EUpdate? {
      MaskFlips(c, key, h.nonce, |h.fed|, call.plain, Mask(c, key, h.nonce, |h.fed|, call.plain));
    }
  }

  lemma {:induction false} EncryptorRunSplit(
      c: Cipher, s: Option<Impl>, h: Session, a: seq<EncryptorCall>, b: seq<EncryptorCall>)
    ensures var (mid, seen) := EncryptorRun(c, s, h, a);
            EncryptorRun(c, s, h, a + b) == EncryptorRun(c, mid, seen, b)
    decreases |a|
  {
    hide EncryptorStep, ObserveEncryptor;
    if a == [] {
      assert a + b == b;
    } else {
      assert (a + b)[1..] == a[1..] + b;
      var (next, reply) := EncryptorStep(c, s, a[0]);
      EncryptorRunSplit(c, next, ObserveEncryptor(h, a[0], reply), a[1..], b);
    }
  }

  lemma {:induction false} EncryptorRunFirst(
      c: Cipher, s: Option<Impl>, h: Session, call: EncryptorCall, rest: seq<EncryptorCall>)
    ensures var (next, reply) := EncryptorStep(c, s, call);
            EncryptorRun(c, s, h, [call] + rest) == EncryptorRun(c, next, ObserveEncryptor(h, call, reply), rest)
  {
    hide EncryptorStep, ObserveEncryptor;
    assert ([call] + rest)[1..] == rest;
  }

  /** Calls that come too early, or whose random source fails. */
  ghost predicate EarlyCalls(calls: seq<EncryptorCall>) {
    forall k | 0 <= k < |calls| :: !calls[k].EMoveAway? && (calls[k].EBegin? ==> calls[k].entropy == None)
  }

  ghost predicate MidwayCalls(calls: seq<EncryptorCall>) {
    forall k | 0 <= k < |calls| :: calls[k].EBegin? || calls[k].EUpdate?
  }

  function Plains(calls: seq<EncryptorCall>): Bytes {
    if calls == [] then []
    else if calls[0].EUpdate? && |calls[0].plain| <= 0x7FFF_FFFF then calls[0].plain + Plains(calls[1..])
    else Plains(calls[1..])
  }

  lemma {:induction false} EarlyCallsChangeNothing(c: Cipher, key: Key, aad: Bytes, calls: seq<EncryptorCall>)
    requires EarlyCalls(calls)
    ensures EncryptorRun(c, Fresh(key, aad), NewSession(), calls) == (Fresh(key, aad), NewSession())
    decreases |calls|
  {
    if calls != [] {
      EarlyCallsChangeNothing(c, key, aad, calls[1..]);
    }
  }

  lemma {:induction false} MidwayEncrypts(c: Cipher, i: Impl, h: Session, calls: seq<EncryptorCall>)
    requires MidwayCalls(calls) && i.phase == Active && i.context.Some?
    ensures var (s, seen) := EncryptorRun(c, Some(i), h, calls);
            && s.Some? && s.value.phase == Active && s.value.context.Some?
            && seen == h.(fed := h.fed + Plains(calls), out := seen.out)
    decreases |calls|
  {
    hide Mask;
    if calls == [] {
      assert h.fed + [] == h.fed;
    } else {
      var (next, reply) := EncryptorStep(c, Some(i), calls[0]);
      MidwayEncrypts(c, next.value, ObserveEncryptor(h, calls[0], reply), calls[1..]);
      if calls[0].EUpdate? && |calls[0].plain| <= 0x7FFF_FFFF {
        assert h.fed + calls[0].plain + Plains(calls[1..]) == h.fed + Plains(calls);
      }
    }
  }

  lemma {:induction false} AfterwardsUnchanged(c: Cipher, i: Impl, h: Session, calls: seq<EncryptorCall>)
    requires i.phase == Finished && EMoveAway !in calls
    ensures EncryptorRun(c, Some(i), h, calls) == (Some(i), h)
    decreases |calls|
  {
    if calls != [] {
      assert calls[0] in calls;
      AfterwardsUnchanged(c, i, h, calls[1..]);
    }
  }

  /** A session with rejected calls anywhere gives out the packet of the updates that were taken. */
  lemma {:induction false} AnySessionEncrypts(
      c: Cipher, key: Key, aad: Bytes, nonce: Nonce,
      before: seq<EncryptorCall>, middle: seq<EncryptorCall>, afterwards: seq<EncryptorCall>)
    requires EarlyCalls(before) && MidwayCalls(middle) && EMoveAway !in afterwards
    ensures var calls := before + ([EBegin(Some(nonce))] + (middle + ([EFinalize] + afterwards)));
            var h := EncryptorRun(c, Fresh(key, aad), NewSession(), calls).1;
            h.begins == 1 && h.finals == 1 && h.out == Packet(c, key, nonce, aad, Plains(middle))
  {
    hide Mask, EncryptorRun, Packet;
    var ending := [EFinalize] + afterwards;
    var session := [EBegin(Some(nonce))] + (middle + ending);
    EarlyCallsChangeNothing(c, key, aad, before);
    EncryptorRunSplit(c, Fresh(key, aad), NewSession(), before, session);
    EncryptorRunFirst(c, Fresh(key, aad), NewSession(), EBegin(Some(nonce)), middle + ending);
    var (active, reply) := EncryptorStep(c, Fresh(key, aad), EBegin(Some(nonce)));
    var h := ObserveEncryptor(NewSession(), EBegin(Some(nonce)), reply);
    MidwayEncrypts(c, active.value, h, middle);
    EncryptorRunSplit(c, active, h, middle, ending);
    var (s, seen) := EncryptorRun(c, active, h, middle);
    EncryptorRunFirst(c, s, seen, EFinalize, afterwards);
    var (done, tag) := EncryptorStep(c, s, EFinalize);
    AfterwardsUnchanged(c, done.value, ObserveEncryptor(seen, EFinalize, tag), afterwards);
    assert [] + Plains(middle) == Plains(middle);
    EncryptorLifecycle(c, key, aad, before + session);
  }
}
