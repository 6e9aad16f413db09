/** SKT1 packets: the streaming encryptor and decryptor as state machines, and what whole sessions produce. */
module PacketStream {
  import opened ByteStrings
  import opened Gcm

  const NONCE_SIZE: nat := 12
  const PREFIX_SIZE: nat := 17
  const OVERHEAD: nat := 33

  /** "SKT1" and the version byte. */
  const HEADER: Bytes := [0x53, 0x4B, 0x54, 0x31, 1]

  type Nonce = n: Bytes | |n| == NONCE_SIZE witness seq(NONCE_SIZE, i => 0)

  // ---------------------------------------------------------------- the backend context

  /** An AES-256-GCM operation under way: the AAD given so far and the ciphertext seen so far. */
  datatype GcmContext = GcmContext(key: Key, nonce: Bytes, aad: Bytes, text: Bytes) {
    function Feed(part: Bytes): GcmContext {
      this.(text := text + part)
    }

    function MaskNext(c: Cipher, part: Bytes): Bytes {
      Mask(c, key, nonce, |text|, part)
    }

    function Tag(c: Cipher): Tag {
      c.tag(key, nonce, aad, text)
    }
  }

  datatype Phase = Ready | Active | Finished

  /** The state behind an encryptor or decryptor; a moved-from object has none. */
  datatype Impl = Impl(key: Key, aad: Bytes, context: Option<GcmContext>, phase: Phase)

  /** Active exactly while there is a context. */
  predicate Consistent(s: Option<Impl>) {
    s.Some? ==> (s.value.phase == Active <==> s.value.context.Some?)
  }

  function Fresh(key: Key, aad: Bytes): Option<Impl> {
    Some(Impl(key, aad, None, Ready))
  }

  function Prefix(nonce: Nonce): (r: Bytes)
    ensures |r| == PREFIX_SIZE
  {
    HEADER + nonce
  }

  /** The packet of a text: prefix, ciphertext, and a tag over header, AAD and ciphertext. */
  function Packet(c: Cipher, key: Key, nonce: Nonce, aad: Bytes, plain: Bytes): Bytes {
    var text := Mask(c, key, nonce, 0, plain);
    Prefix(nonce) + text + c.tag(key, nonce, HEADER + aad, text)
  }

  predicate ValidPrefix(p: Bytes) {
    |p| == PREFIX_SIZE && p[..4] == HEADER[..4] && p[4] == HEADER[4]
  }

  // ---------------------------------------------------------------- encryptor

  /** `entropy` is what the random source delivers, if it delivers. */
  datatype EncryptorCall = EBegin(entropy: Option<Nonce>) | EUpdate(plain: Bytes) | EFinalize | EMoveAway

  /** One call on an encryptor: the next state and the reply. */
  function EncryptorStep(c: Cipher, s: Option<Impl>, call: EncryptorCall): (Option<Impl>, Result<Bytes>) {
    match (s, call)
    case (_, EMoveAway) => (None, Ok([]))
    case (None, _) => (None, Err(InvalidInput))
    case (Some(i), EBegin(entropy)) =>
      if i.phase != Ready then (s, Err(InvalidInput))
      else if entropy == None then (s, Err(BackendFailure))
      else
        var context := GcmContext(i.key, entropy.value, HEADER + i.aad, []);
        (Some(i.(context := Some(context), phase := Active)), Ok(Prefix(entropy.value)))
    case (Some(i), EUpdate(plain)) =>
      if i.phase != Active || i.context == None then (s, Err(InvalidInput))
      else if |plain| > INT_MAX then (s, Err(InvalidInput))
      else
        var text := i.context.value.MaskNext(c, plain);
        (Some(i.(context := Some(i.context.value.Feed(text)))), Ok(text))
    case (Some(i), EFinalize) =>
      if i.phase != Active || i.context == None then (s, Err(InvalidInput))
      else (Some(i.(context := None, phase := Finished)), Ok(i.context.value.Tag(c)))
  }

  class PacketEncryptor {
    const cipher: Cipher
    var impl: Option<Impl>

    ghost predicate Valid()
      reads this
    {
      Consistent(impl)
    }

    constructor (cipher: Cipher, impl: Option<Impl>)
      ensures this.cipher == cipher && this.impl == impl
    {
      this.cipher, this.impl := cipher, impl;
    }

    /** Construction refuses an AAD the backend could not take in one call. */
    static method Create(cipher: Cipher, key: Key, aad: Bytes) returns (r: Result<PacketEncryptor>)
      ensures |aad| > INT_MAX ==> r == Err(InvalidInput)
      ensures |aad| <= INT_MAX ==>
                r.Ok? && fresh(r.value) && r.value.cipher == cipher && r.value.impl == Fresh(key, aad)
    {
      if |aad| > INT_MAX {
        return Err(InvalidInput);
      }
      var e := new PacketEncryptor(cipher, Fresh(key, aad));
      return Ok(e);
    }

    method Begin(entropy: Option<Nonce>) returns (r: Result<Bytes>)
      requires Valid()
      modifies this
      ensures Valid() && (impl, r) == EncryptorStep(cipher, old(impl), EBegin(entropy))
    {
      if impl == None {
        return Err(InvalidInput);
      }
      var i := impl.value;
      if i.phase != Ready {
        return Err(InvalidInput);
      }
      if entropy == None {
        return Err(BackendFailure);
      }
      var nonce := entropy.value;
      var context := GcmContext(i.key, nonce, [], []);
      context := context.(aad := context.aad + HEADER);
      context := context.(aad := context.aad + i.aad);
      assert context.aad == HEADER + i.aad;
      impl := Some(i.(context := Some(context)));
      impl := Some(impl.value.(phase := Active));
      return Ok(Prefix(nonce));
    }

    method Update(plain: Bytes) returns (r: Result<Bytes>)
      requires Valid()
      modifies this
      ensures Valid() && (impl, r) == EncryptorStep(cipher, old(impl), EUpdate(plain))
    {
      if impl == None || impl.value.phase != Active {
        return Err(InvalidInput);
      }
      if |plain| > INT_MAX {
        return Err(InvalidInput);
      }
      var context := impl.value.context.value;
      var text := context.MaskNext(cipher, plain);
      impl := Some(impl.value.(context := Some(context.Feed(text))));
      return Ok(text);
    }

    method Finalize() returns (r: Result<Bytes>)
      requires Valid()
      modifies this
      ensures Valid() && (impl, r) == EncryptorStep(cipher, old(impl), EFinalize)
    {
      if impl == None || impl.value.phase != Active {
        return Err(InvalidInput);
      }
      var tag := impl.value.context.value.Tag(cipher);
      impl := Some(impl.value.(context := None, phase := Finished));
      return Ok(tag);
    }

    /** Moving hands the whole state over; the moved-from object has none. */
    method MoveAway() returns (other: PacketEncryptor)
      requires Valid()
      modifies this
      ensures Valid() && impl == None
      ensures fresh(other) && other.Valid() && other.cipher == cipher && other.impl == old(impl)
    {
      other := new PacketEncryptor(cipher, impl);
      impl := None;
    }

    /** Move assignment: the state of `other` replaces this one, and `other` is left with none. */
    method MoveFrom(other: PacketEncryptor)
      requires Valid() && other.Valid() && other.cipher == cipher
      modifies this, other
      ensures Valid() && other.Valid() && impl == old(other.impl)
      ensures other != this ==> other.impl == None
    {
      var state := other.impl;
      other.impl := None;
      impl := state;
    }
  }

  /** What an observer of a session has seen succeed: begins and finalizes, text fed in, bytes given out. */
  datatype Session = Session(begins: nat, finals: nat, nonce: Nonce, fed: Bytes, out: Bytes)

  function NewSession(): Session {
    Session(0, 0, seq(NONCE_SIZE, i => 0), [], [])
  }

  function ObserveEncryptor(h: Session, call: EncryptorCall, reply: Result<Bytes>): Session {
    if reply.Err? || call.EMoveAway? then h
    else match call
      case EBegin(entropy) =>
        h.(begins := h.begins + 1, nonce := if entropy.Some? then entropy.value else h.nonce,
           out := h.out + reply.value)
      case EUpdate(plain) => h.(fed := h.fed + plain, out := h.out + reply.value)
      case EFinalize => h.(finals := h.finals + 1, out := h.out + reply.value)
      case EMoveAway => h
  }

  function EncryptorRun(c: Cipher, s: Option<Impl>, h: Session, calls: seq<EncryptorCall>): (Option<Impl>, Session)
    decreases |calls|
  {
    if calls == [] then (s, h)
    else
      var (next, reply) := EncryptorStep(c, s, calls[0]);
      EncryptorRun(c, next, ObserveEncryptor(h, calls[0], reply), calls[1..])
  }

  /** The shape of every reachable encryptor state and of what was seen on the way to it. */
  ghost predicate EncryptorInv(c: Cipher, key: Key, aad: Bytes, s: Option<Impl>, h: Session) {
    var text := Mask(c, key, h.nonce, 0, h.fed);
    && Consistent(s)
    && (s.Some? ==> s.value.key == key && s.value.aad == aad)
    && h.finals <= h.begins <= 1
    && (h.begins == 0 ==> h.fed == [] && h.out == [])
    && (h.begins == 1 && h.finals == 0 ==> h.out == Prefix(h.nonce) + text)
    && (h.finals == 1 ==> h.out == Packet(c, key, h.nonce, aad, h.fed))
    && (s.Some? ==>
          match s.value.phase
          case Ready => h.begins == 0
          case Active =>
            h.begins == 1 && h.finals == 0 && s.value.context == Some(GcmContext(key, h.nonce, HEADER + aad, text))
          case Finished => h.finals == 1)
  }

  lemma {:induction false} EncryptorStepKeeps(
      c: Cipher, key: Key, aad: Bytes, s: Option<Impl>, h: Session, call: EncryptorCall)
    requires EncryptorInv(c, key, aad, s, h)
    ensures var (next, reply) := EncryptorStep(c, s, call);
            EncryptorInv(c, key, aad, next, ObserveEncryptor(h, call, reply))
  {
    hide Mask;
    if call.EUpdate? {
      MaskSplit(c, key, h.nonce, 0, h.fed, call.plain);
    }
  }

  lemma {:induction false} EncryptorRunKeeps(
      c: Cipher, key: Key, aad: Bytes, s: Option<Impl>, h: Session, calls: seq<EncryptorCall>)
    requires EncryptorInv(c, key, aad, s, h)
    ensures var (end, seen) := EncryptorRun(c, s, h, calls);
            EncryptorInv(c, key, aad, end, seen)
    decreases |calls|
  {
    if calls != [] {
      EncryptorStepKeeps(c, key, aad, s, h, calls[0]);
      var (next, reply) := EncryptorStep(c, s, calls[0]);
      EncryptorRunKeeps(c, key, aad, next, ObserveEncryptor(h, calls[0], reply), calls[1..]);
    }
  }

  /**
   * Every sequence of calls on a new encryptor, rejected ones included: at most one `begin` and
   * one `finalize` succeed, and once `finalize` has succeeded the bytes given out are the packet
   * of exactly the texts of the successful updates, in order.
   */
  lemma {:induction false} EncryptorLifecycle(c: Cipher, key: Key, aad: Bytes, calls: seq<EncryptorCall>)
    ensures var (s, h) := EncryptorRun(c, Fresh(key, aad), NewSession(), calls);
            && h.finals <= h.begins <= 1 && Consistent(s)
            && (h.finals == 1 ==> h.out == Packet(c, key, h.nonce, aad, h.fed))
            && (h.finals == 0 ==>
                h.out == if h.begins == 0 then [] else Prefix(h.nonce) + Mask(c, key, h.nonce, 0, h.fed))
  {
    EncryptorRunKeeps(c, key, aad, Fresh(key, aad), NewSession(), calls);
  }

  // ---------------------------------------------------------------- decryptor

  datatype DecryptorCall = DBegin(prefix: Bytes) | DUpdate(text: Bytes) | DFinalize(tag: Bytes) | DMoveAway

  /** One call on a decryptor. A bad prefix leaves it ready; a bad tag or tag size finishes it. */
  function DecryptorStep(c: Cipher, s: Option<Impl>, call: DecryptorCall): (Option<Impl>, Result<Bytes>) {
    match (s, call)
    case (_, DMoveAway) => (None, Ok([]))
    case (None, _) => (None, Err(InvalidInput))
    case (Some(i), DBegin(prefix)) =>
      if i.phase != Ready then (s, Err(InvalidInput))
      else if !ValidPrefix(prefix) then (s, Err(InvalidPacket))
      else
        var context := GcmContext(i.key, prefix[5..], HEADER + i.aad, []);
        (Some(i.(context := Some(context), phase := Active)), Ok([]))
    case (Some(i), DUpdate(text)) =>
      if i.phase != Active || i.context == None then (s, Err(InvalidInput))
      else if |text| > INT_MAX then (s, Err(InvalidInput))
      else
        var plain := i.context.value.MaskNext(c, text);
        (Some(i.(context := Some(i.context.value.Feed(text)))), Ok(plain))
    case (Some(i), DFinalize(tag)) =>
      if i.phase != Active || i.context == None then (s, Err(InvalidInput))
      else
        var end := Some(i.(context := None, phase := Finished));
        if |tag| != TAG_SIZE then (end, Err(InvalidPacket))
        else if tag != i.context.value.Tag(c) then (end, Err(AuthenticationFailed))
        else (end, Ok([]))
  }

  class PacketDecryptor {
    const cipher: Cipher
    var impl: Option<Impl>

    ghost predicate Valid()
      reads this
    {
      Consistent(impl)
    }

    constructor (cipher: Cipher, impl: Option<Impl>)
      ensures this.cipher == cipher && this.impl == impl
    {
      this.cipher, this.impl := cipher, impl;
    }

    static method Create(cipher: Cipher, key: Key, aad: Bytes) returns (r: Result<PacketDecryptor>)
      ensures |aad| > INT_MAX ==> r == Err(InvalidInput)
      ensures |aad| <= INT_MAX ==>
                r.Ok? && fresh(r.value) && r.value.cipher == cipher && r.value.impl == Fresh(key, aad)
    {
      if |aad| > INT_MAX {
        return Err(InvalidInput);
      }
      var d := new PacketDecryptor(cipher, Fresh(key, aad));
      return Ok(d);
    }

    method Begin(prefix: Bytes) returns (r: Result<Bytes>)
      requires Valid()
      modifies this
      ensures Valid() && (impl, r) == DecryptorStep(cipher, old(impl), DBegin(prefix))
    {
      if impl == None {
        return Err(InvalidInput);
      }
      var i := impl.value;
      if i.phase != Ready {
        return Err(InvalidInput);
      }
      if !ValidPrefix(prefix) {
        return Err(InvalidPacket);
      }
      var header, nonce := prefix[..5], prefix[5..];
      assert header == prefix[..4] + [prefix[4]] == HEADER;
      var context := GcmContext(i.key, nonce, [], []);
      context := context.(aad := context.aad + header);
      context := context.(aad := context.aad + i.aad);
      assert context.aad == HEADER + i.aad;
      impl := Some(i.(context := Some(context)));
      impl := Some(impl.value.(phase := Active));
      return Ok([]);
    }

    method Update(text: Bytes) returns (r: Result<Bytes>)
      requires Valid()
      modifies this
      ensures Valid() && (impl, r) == DecryptorStep(cipher, old(impl), DUpdate(text))
    {
      if impl == None || impl.value.phase != Active {
        return Err(InvalidInput);
      }
      if |text| > INT_MAX {
        return Err(InvalidInput);
      }
      var context := impl.value.context.value;
      var plain := context.MaskNext(cipher, text);
      impl := Some(impl.value.(context := Some(context.Feed(text))));
      return Ok(plain);
    }

    method Finalize(tag: Bytes) returns (r: Result<Bytes>)
      requires Valid()
      modifies this
      ensures Valid() && (impl, r) == DecryptorStep(cipher, old(impl), DFinalize(tag))
    {
      if impl == None || impl.value.phase != Active {
        return Err(InvalidInput);
      }
      if |tag| != TAG_SIZE {
        impl := Some(impl.value.(context := None, phase := Finished));
        return Err(InvalidPacket);
      }
      var expected := impl.value.context.value.Tag(cipher);
      impl := Some(impl.value.(context := None, phase := Finished));
      if tag != expected {
        return Err(AuthenticationFailed);
      }
      return Ok([]);
    }

    method MoveAway() returns (other: PacketDecryptor)
      requires Valid()
      modifies this
      ensures Valid() && impl == None
      ensures fresh(other) && other.Valid() && other.cipher == cipher && other.impl == old(impl)
    {
      other := new PacketDecryptor(cipher, impl);
      impl := None;
    }

    /** Move assignment: the state of `other` replaces this one, and `other` is left with none. */
    method MoveFrom(other: PacketDecryptor)
      requires Valid() && other.Valid() && other.cipher == cipher
      modifies this, other
      ensures Valid() && other.Valid() && impl == old(other.impl)
      ensures other != this ==> other.impl == None
    {
      var state := other.impl;
      other.impl := None;
      impl := state;
    }
  }

  /** What a decryptor session has seen: the wire bytes taken in and the text given out. */
  datatype Reading = Reading(begins: nat, finals: nat, ended: bool, wire: Bytes, fed: Bytes, out: Bytes)

  function NewReading(): Reading {
    Reading(0, 0, false, [], [], [])
  }

  function ObserveDecryptor(h: Reading, call: DecryptorCall, reply: Result<Bytes>): Reading {
    match call
    case DBegin(prefix) => if reply.Err? then h else h.(begins := h.begins + 1, wire := h.wire + prefix)
    case DUpdate(text) =>
      if reply.Err? then h else h.(wire := h.wire + text, fed := h.fed + text, out := h.out + reply.value)
    case DFinalize(tag) =>
      if reply == Err(InvalidInput) then h
      else if reply.Err? then h.(ended := true)
      else h.(finals := h.finals + 1, ended := true, wire := h.wire + tag, out := h.out + reply.value)
    case DMoveAway => h
  }

  function DecryptorRun(c: Cipher, s: Option<Impl>, h: Reading, calls: seq<DecryptorCall>): (Option<Impl>, Reading)
    decreases |calls|
  {
    if calls == [] then (s, h)
    else
      var (next, reply) := DecryptorStep(c, s, calls[0]);
      DecryptorRun(c, next, ObserveDecryptor(h, calls[0], reply), calls[1..])
  }

  /** The nonce of a wire, once a prefix was taken in. */
  function WireNonce(wire: Bytes): Nonce
    requires |wire| >= PREFIX_SIZE
  {
    wire[5..PREFIX_SIZE]
  }

  ghost predicate DecryptorInv(c: Cipher, key: Key, aad: Bytes, s: Option<Impl>, h: Reading) {
    && Consistent(s)
    && (s.Some? ==> s.value.key == key && s.value.aad == aad)
    && h.finals <= h.begins <= 1 && (h.finals == 1 ==> h.ended)
    && (h.begins == 0 ==> h.wire == [] && h.fed == [] && h.out == [] && !h.ended)
    && (h.begins == 1 ==>
          && |h.wire| >= PREFIX_SIZE
          && (var nonce := WireNonce(h.wire);
              && h.out == Mask(c, key, nonce, 0, h.fed)
              && (h.finals == 0 ==> h.wire == Prefix(nonce) + h.fed)
              && (h.finals == 1 ==> h.wire == Packet(c, key, nonce, aad, h.out))
              && (s.Some? && s.value.phase == Active ==>
                    s.value.context == Some(GcmContext(key, nonce, HEADER + aad, h.fed)))))
    && (s.Some? ==>
          match s.value.phase
          case Ready => h.begins == 0
          case Active => h.begins == 1 && !h.ended
          case Finished => h.ended)
  }

  lemma {:induction false} DecryptorBeginKeeps(
      c: Cipher, key: Key, aad: Bytes, s: Option<Impl>, h: Reading, call: DecryptorCall)
    requires DecryptorInv(c, key, aad, s, h) && call.DBegin?
    ensures var (next, reply) := DecryptorStep(c, s, call);
            DecryptorInv(c, key, aad, next, ObserveDecryptor(h, call, reply))
  {
    hide Mask;
    var (next, reply) := DecryptorStep(c, s, call);
    if reply.Ok? {
      var prefix := call.prefix;
      assert prefix == prefix[..4] + [prefix[4]] + prefix[5..];
      assert h.wire + prefix == prefix == Prefix(prefix[5..]);
      assert WireNonce(prefix) == prefix[5..];
    }
  }

  lemma {:induction false} DecryptorUpdateKeeps(
      c: Cipher, key: Key, aad: Bytes, s: Option<Impl>, h: Reading, call: DecryptorCall)
    requires DecryptorInv(c, key, aad, s, h) && call.DUpdate?
    ensures var (next, reply) := DecryptorStep(c, s, call);
            DecryptorInv(c, key, aad, next, ObserveDecryptor(h, call, reply))
  {
    hide Mask;
    var (next, reply) := DecryptorStep(c, s, call);
    if reply.Ok? {
      var nonce := WireNonce(h.wire);
      assert WireNonce(h.wire + call.text) == nonce;
      MaskSplit(c, key, nonce, 0, h.fed, call.text);
      assert h.wire + call.text == Prefix(nonce) + (h.fed + call.text);
    }
  }

  lemma {:induction false} DecryptorFinalizeKeeps(
      c: Cipher, key: Key, aad: Bytes, s: Option<Impl>, h: Reading, call: DecryptorCall)
    requires DecryptorInv(c, key, aad, s, h) && call.DFinalize?
    ensures var (next, reply) := DecryptorStep(c, s, call);
            DecryptorInv(c, key, aad, next, ObserveDecryptor(h, call, reply))
  {
    hide Mask;
    var (next, reply) := DecryptorStep(c, s, call);
    if reply.Ok? {
      var nonce := WireNonce(h.wire);
      assert WireNonce(h.wire + call.tag) == nonce;
      MaskTwice(c, key, nonce, 0, h.fed);
      assert h.out + reply.value == h.out;
    }
  }

  lemma {:induction false} DecryptorStepKeeps(
      c: Cipher, key: Key, aad: Bytes, s: Option<Impl>, h: Reading, call: DecryptorCall)
    requires DecryptorInv(c, key, aad, s, h)
    ensures var (next, reply) := DecryptorStep(c, s, call);
            DecryptorInv(c, key, aad, next, ObserveDecryptor(h, call, reply))
  {
    hide Mask;
    match call
    case DBegin(_) => DecryptorBeginKeeps(c, key, aad, s, h, call);
    case DUpdate(_) => DecryptorUpdateKeeps(c, key, aad, s, h, call);
    case DFinalize(_) => DecryptorFinalizeKeeps(c, key, aad, s, h, call);
    case DMoveAway =>
  }

  lemma {:induction false} DecryptorRunKeeps(
      c: Cipher, key: Key, aad: Bytes, s: Option<Impl>, h: Reading, calls: seq<DecryptorCall>)
    requires DecryptorInv(c, key, aad, s, h)
    ensures var (end, seen) := DecryptorRun(c, s, h, calls);
            DecryptorInv(c, key, aad, end, seen)
    decreases |calls|
  {
    if calls != [] {
      DecryptorStepKeeps(c, key, aad, s, h, calls[0]);
      var (next, reply) := DecryptorStep(c, s, calls[0]);
      DecryptorRunKeeps(c, key, aad, next, ObserveDecryptor(h, calls[0], reply), calls[1..]);
    }
  }

  /**
   * Every sequence of calls on a new decryptor: at most one `begin` and one `finalize` succeed,
   * and once `finalize` has succeeded the bytes taken in are a packet of the text given out.
   */
  lemma {:induction false} DecryptorLifecycle(c: Cipher, key: Key, aad: Bytes, calls: seq<DecryptorCall>)
    ensures var (s, h) := DecryptorRun(c, Fresh(key, aad), NewReading(), calls);
            && h.finals <= h.begins <= 1 && Consistent(s)
            && (h.finals == 1 ==>
                |h.wire| >= PREFIX_SIZE && h.wire == Packet(c, key, WireNonce(h.wire), aad, h.out))
            && (s.Some? && s.value.phase == Ready <==> s.Some? && h.begins == 0)
            && (s.Some? && s.value.phase == Finished <==> s.Some? && h.ended)
  {
    DecryptorRunKeeps(c, key, aad, Fresh(key, aad), NewReading(), calls);
  }

  // ---------------------------------------------------------------- sessions across moves

  /** Moving the state of one object to another, or to a new one behind the last. */
  function Moved(objects: seq<Option<Impl>>, from: nat, to: nat): (r: seq<Option<Impl>>)
    ensures |r| >= |objects|
  {
    if from >= |objects| || to > |objects| || from == to then objects
    else if to == |objects| then objects[from := None] + [objects[from]]
    else objects[from := None][to := objects[from]]
  }

  /** At most one object has a state. */
  ghost predicate OneState(objects: seq<Option<Impl>>) {
    forall j, k | 0 <= j < k < |objects| :: objects[j] == None || objects[k] == None
  }

  datatype EncryptorAct = EOn(at: nat, call: EncryptorCall) | EMove(from: nat, to: nat)

  /** Calls on any of several objects, of which the first was constructed and the others were moved to. */
  function EncryptorFamilyRun(c: Cipher, objects: seq<Option<Impl>>, h: Session, acts: seq<EncryptorAct>)
    : (seq<Option<Impl>>, Session)
    decreases |acts|
  {
    if acts == [] then (objects, h)
    else
      match acts[0]
      case EMove(from, to) => EncryptorFamilyRun(c, Moved(objects, from, to), h, acts[1..])
      case EOn(at, call) =>
        if at >= |objects| then EncryptorFamilyRun(c, objects, h, acts[1..])
        else
          var (next, reply) := EncryptorStep(c, objects[at], call);
          EncryptorFamilyRun(c, objects[at := next], ObserveEncryptor(h, call, reply), acts[1..])
  }

  ghost predicate EncryptorFamilyInv(c: Cipher, key: Key, aad: Bytes, objects: seq<Option<Impl>>, h: Session) {
    objects != [] && OneState(objects) && forall j | 0 <= j < |objects| :: EncryptorInv(c, key, aad, objects[j], h)
  }

  lemma {:induction false} EncryptorFamilyKeeps(
      c: Cipher, key: Key, aad: Bytes, objects: seq<Option<Impl>>, h: Session, acts: seq<EncryptorAct>)
    requires EncryptorFamilyInv(c, key, aad, objects, h)
    ensures var (end, seen) := EncryptorFamilyRun(c, objects, h, acts);
            EncryptorFamilyInv(c, key, aad, end, seen)
    decreases |acts|
  {
    hide EncryptorInv, EncryptorStep, ObserveEncryptor;
    if acts != [] {
      match acts[0]
      case EMove(from, to) =>
        EncryptorInvStateless(c, key, aad, objects[0], h);
        EncryptorFamilyKeeps(c, key, aad, Moved(objects, from, to), h, acts[1..]);
      case EOn(at, call) =>
        if at >= |objects| {
          EncryptorFamilyKeeps(c, key, aad, objects, h, acts[1..]);
        } else {
          var (next, reply) := EncryptorStep(c, objects[at], call);
          var after := ObserveEncryptor(h, call, reply);
          EncryptorCallKeepsFamily(c, key, aad, objects, h, at, call);
          EncryptorFamilyKeeps(c, key, aad, objects[at := next], after, acts[1..]);
        }
    }
  }

  lemma {:induction false} EncryptorInvStateless(c: Cipher, key: Key, aad: Bytes, s: Option<Impl>, h: Session)
    requires EncryptorInv(c, key, aad, s, h)
    ensures EncryptorInv(c, key, aad, None, h)
  {
    hide Mask;
  }

  /** A moved-from object refuses every call, so nothing is observed of it. */
  lemma {:induction false} EncryptorStatelessRefuses(c: Cipher, h: Session, call: EncryptorCall)
    ensures var (next, reply) := EncryptorStep(c, None, call);
            next == None && ObserveEncryptor(h, call, reply) == h
  {
  }

  lemma {:induction false} EncryptorCallKeepsFamily(
      c: Cipher, key: Key, aad: Bytes, objects: seq<Option<Impl>>, h: Session, at: nat, call: EncryptorCall)
    requires EncryptorFamilyInv(c, key, aad, objects, h) && at < |objects|
    ensures var (next, reply) := EncryptorStep(c, objects[at], call);
            EncryptorFamilyInv(c, key, aad, objects[at := next], ObserveEncryptor(h, call, reply))
  {
    hide EncryptorInv, EncryptorStep, ObserveEncryptor;
    var (next, reply) := EncryptorStep(c, objects[at], call);
    var after := ObserveEncryptor(h, call, reply);
    if objects[at] == None {
      EncryptorStatelessRefuses(c, h, call);
      assert objects[at := next] == objects;
    } else {
      EncryptorStepKeeps(c, key, aad, objects[at], h, call);
      EncryptorInvStateless(c, key, aad, next, after);
      assert forall j | 0 <= j < |objects| && j != at :: objects[j] == None;
    }
  }

  /**
   * Sessions that go on in other objects: for calls on an encryptor and on every object its state
   * is moved to, in any order, at most one object has a state, at most one `begin` and one
   * `finalize` succeed among them all, and what they give out together is the packet of exactly
   * the successful updates.
   */
  lemma {:induction false} EncryptorSessionsMove(c: Cipher, key: Key, aad: Bytes, acts: seq<EncryptorAct>)
    ensures var (objects, h) := EncryptorFamilyRun(c, [Fresh(key, aad)], NewSession(), acts);
            && OneState(objects) && (forall j | 0 <= j < |objects| :: Consistent(objects[j]))
            && h.finals <= h.begins <= 1
            && (h.finals == 1 ==> h.out == Packet(c, key, h.nonce, aad, h.fed))
            && (h.finals == 0 ==>
                h.out == if h.begins == 0 then [] else Prefix(h.nonce) + Mask(c, key, h.nonce, 0, h.fed))
  {
    hide Mask, Packet;
    EncryptorFamilyKeeps(c, key, aad, [Fresh(key, aad)], NewSession(), acts);
    var (objects, h) := EncryptorFamilyRun(c, [Fresh(key, aad)], NewSession(), acts);
    assert EncryptorInv(c, key, aad, objects[0], h);
  }

  datatype DecryptorAct = DOn(at: nat, call: DecryptorCall) | DMove(from: nat, to: nat)

  /** Calls on any of several objects, of which the first was constructed and the others were moved to. */
  function DecryptorFamilyRun(c: Cipher, objects: seq<Option<Impl>>, h: Reading, acts: seq<DecryptorAct>)
    : (seq<Option<Impl>>, Reading)
    decreases |acts|
  {
    if acts == [] then (objects, h)
    else
      match acts[0]
      case DMove(from, to) => DecryptorFamilyRun(c, Moved(objects, from, to), h, acts[1..])
      case DOn(at, call) =>
        if at >= |objects| then DecryptorFamilyRun(c, objects, h, acts[1..])
        else
          var (next, reply) := DecryptorStep(c, objects[at], call);
          DecryptorFamilyRun(c, objects[at := next], ObserveDecryptor(h, call, reply), acts[1..])
  }

  ghost predicate DecryptorFamilyInv(c: Cipher, key: Key, aad: Bytes, objects: seq<Option<Impl>>, h: Reading) {
    objects != [] && OneState(objects) && forall j | 0 <= j < |objects| :: DecryptorInv(c, key, aad, objects[j], h)
  }

  lemma {:induction false} DecryptorFamilyKeeps(
      c: Cipher, key: Key, aad: Bytes, objects: seq<Option<Impl>>, h: Reading, acts: seq<DecryptorAct>)
    requires DecryptorFamilyInv(c, key, aad, objects, h)
    ensures var (end, seen) := DecryptorFamilyRun(c, objects, h, acts);
            DecryptorFamilyInv(c, key, aad, end, seen)
    decreases |acts|
  {
    hide DecryptorInv, DecryptorStep, ObserveDecryptor;
    if acts != [] {
      match acts[0]
      case DMove(from, to) =>
        DecryptorInvStateless(c, key, aad, objects[0], h);
        DecryptorFamilyKeeps(c, key, aad, Moved(objects, from, to), h, acts[1..]);
      case DOn(at, call) =>
        if at >= |objects| {
          DecryptorFamilyKeeps(c, key, aad, objects, h, acts[1..]);
        } else {
          var (next, reply) := DecryptorStep(c, objects[at], call);
          var after := ObserveDecryptor(h, call, reply);
          DecryptorCallKeepsFamily(c, key, aad, objects, h, at, call);
          DecryptorFamilyKeeps(c, key, aad, objects[at := next], after, acts[1..]);
        }
    }
  }

  lemma {:induction false} DecryptorInvStateless(c: Cipher, key: Key, aad: Bytes, s: Option<Impl>, h: Reading)
    requires DecryptorInv(c, key, aad, s, h)
    ensures DecryptorInv(c, key, aad, None, h)
  {
    hide Mask;
  }

  /** A moved-from object refuses every call, so nothing is observed of it. */
  lemma {:induction false} DecryptorStatelessRefuses(c: Cipher, h: Reading, call: DecryptorCall)
    ensures var (next, reply) := DecryptorStep(c, None, call);
            next == None && ObserveDecryptor(h, call, reply) == h
  {
  }

  lemma {:induction false} DecryptorCallKeepsFamily(
      c: Cipher, key: Key, aad: Bytes, objects: seq<Option<Impl>>, h: Reading, at: nat, call: DecryptorCall)
    requires DecryptorFamilyInv(c, key, aad, objects, h) && at < |objects|
    ensures var (next, reply) := DecryptorStep(c, objects[at], call);
            DecryptorFamilyInv(c, key, aad, objects[at := next], ObserveDecryptor(h, call, reply))
  {
    hide DecryptorInv, DecryptorStep, ObserveDecryptor;
    var (next, reply) := DecryptorStep(c, objects[at], call);
    var after := ObserveDecryptor(h, call, reply);
    if objects[at] == None {
      DecryptorStatelessRefuses(c, h, call);
      assert objects[at := next] == objects;
    } else {
      DecryptorStepKeeps(c, key, aad, objects[at], h, call);
      DecryptorInvStateless(c, key, aad, next, after);
      assert forall j | 0 <= j < |objects| && j != at :: objects[j] == None;
    }
  }

  /** The same for decryptors: together they take in a packet of the text they give out, once one of them finishes. */
  lemma {:induction false} DecryptorSessionsMove(c: Cipher, key: Key, aad: Bytes, acts: seq<DecryptorAct>)
    ensures var (objects, h) := DecryptorFamilyRun(c, [Fresh(key, aad)], NewReading(), acts);
            && OneState(objects) && (forall j | 0 <= j < |objects| :: Consistent(objects[j]))
            && h.finals <= h.begins <= 1
            && (h.finals == 1 ==>
                |h.wire| >= PREFIX_SIZE && h.wire == Packet(c, key, WireNonce(h.wire), aad, h.out))
  {
    hide Mask, Packet;
    DecryptorFamilyKeeps(c, key, aad, [Fresh(key, aad)], NewReading(), acts);
    var (objects, h) := DecryptorFamilyRun(c, [Fresh(key, aad)], NewReading(), acts);
    assert DecryptorInv(c, key, aad, objects[0], h);
  }

  // ---------------------------------------------------------------- cuts

  function EncryptorUpdates(cuts: seq<Bytes>): seq<EncryptorCall> {
    seq(|cuts|, k requires 0 <= k < |cuts| => EUpdate(cuts[k]))
  }

  function DecryptorUpdates(cuts: seq<Bytes>): seq<DecryptorCall> {
    seq(|cuts|, k requires 0 <= k < |cuts| => DUpdate(cuts[k]))
  }

  ghost predicate EachFits(cuts: seq<Bytes>) {
    forall k | 0 <= k < |cuts| :: |cuts[k]| <= INT_MAX
  }

  /**
   * Split independence, encrypting: however a text is cut into updates that each fit a backend
   * call, the session gives out the same packet.
   */
  lemma {:induction false} AnyCutEncrypts(c: Cipher, key: Key, aad: Bytes, nonce: Nonce, cuts: seq<Bytes>)
    requires EachFits(cuts)
    ensures var calls := [EBegin(Some(nonce))] + EncryptorUpdates(cuts) + [EFinalize];
            var (s, h) := EncryptorRun(c, Fresh(key, aad), NewSession(), calls);
            h.finals == 1 && h.nonce == nonce && h.fed == Concat(cuts)
            && h.out == Packet(c, key, nonce, aad, Concat(cuts))
  {
    var calls := [EBegin(Some(nonce))] + EncryptorUpdates(cuts) + [EFinalize];
    assert calls[1..] == EncryptorUpdates(cuts) + [EFinalize];
    var (s, reply) := EncryptorStep(c, Fresh(key, aad), calls[0]);
    EncryptorUpdatesRun(c, s, ObserveEncryptor(NewSession(), calls[0], reply), cuts);
    EncryptorLifecycle(c, key, aad, calls);
  }

  lemma {:induction false} EncryptorUpdatesRun(c: Cipher, s: Option<Impl>, h: Session, cuts: seq<Bytes>)
    requires EachFits(cuts) && s.Some? && s.value.phase == Active && s.value.context.Some?
    ensures var (_, seen) := EncryptorRun(c, s, h, EncryptorUpdates(cuts) + [EFinalize]);
            seen.finals == h.finals + 1 && seen.nonce == h.nonce && seen.fed == h.fed + Concat(cuts)
    decreases |cuts|
  {
    hide Mask;
    var calls := EncryptorUpdates(cuts) + [EFinalize];
    var (next, reply) := EncryptorStep(c, s, calls[0]);
    if cuts == [] {
      assert calls[1..] == [];
    } else {
      assert calls[1..] == EncryptorUpdates(cuts[1..]) + [EFinalize];
      EncryptorUpdatesRun(c, next, ObserveEncryptor(h, calls[0], reply), cuts[1..]);
    }
  }

  /**
   * Split independence, decrypting: a decryptor fed a packet under any other cut of its
   * ciphertext gives out the text, and its `finalize` succeeds.
   */
  lemma {:induction false} AnyCutDecrypts(c: Cipher, key: Key, aad: Bytes, nonce: Nonce, plain: Bytes, cuts: seq<Bytes>)
    requires EachFits(cuts) && Concat(cuts) == Mask(c, key, nonce, 0, plain)
    ensures var tag := c.tag(key, nonce, HEADER + aad, Concat(cuts));
            var calls := [DBegin(Prefix(nonce))] + DecryptorUpdates(cuts) + [DFinalize(tag)];
            var (s, h) := DecryptorRun(c, Fresh(key, aad), NewReading(), calls);
            h.finals == 1 && h.wire == Packet(c, key, nonce, aad, plain) && h.out == plain
  {
    hide Mask, DecryptorStep, DecryptorInv;
    var text := Concat(cuts);
    var tag := c.tag(key, nonce, HEADER + aad, text);
    var calls := [DBegin(Prefix(nonce))] + DecryptorUpdates(cuts) + [DFinalize(tag)];
    assert calls[1..] == DecryptorUpdates(cuts) + [DFinalize(tag)];
    BeginWithPrefix(c, key, aad, nonce);
    var context := GcmContext(key, nonce, HEADER + aad, []);
    assert [] + text == text && [] + Prefix(nonce) == Prefix(nonce);
    var h := NewReading().(begins := 1, wire := Prefix(nonce));
    DecryptorUpdatesRun(c, Some(Impl(key, aad, Some(context), Active)), h, cuts, tag);
    DecryptorLifecycle(c, key, aad, calls);
    PacketsOpenAlike(c, key, nonce, aad, plain, DecryptorRun(c, Fresh(key, aad), NewReading(), calls).1);
  }

  lemma {:induction false} BeginWithPrefix(c: Cipher, key: Key, aad: Bytes, nonce: Nonce)
    ensures DecryptorStep(c, Fresh(key, aad), DBegin(Prefix(nonce)))
            == (Some(Impl(key, aad, Some(GcmContext(key, nonce, HEADER + aad, [])), Active)), Ok([]))
  {
    assert Prefix(nonce)[5..] == nonce && Prefix(nonce)[..4] == HEADER[..4];
  }

  /** A session that took in the packet of `plain` and finished gave `plain` out. */
  lemma {:induction false} PacketsOpenAlike(c: Cipher, key: Key, nonce: Nonce, aad: Bytes, plain: Bytes, h: Reading)
    requires h.wire == Packet(c, key, nonce, aad, plain)
    requires |h.wire| >= PREFIX_SIZE && h.wire == Packet(c, key, WireNonce(h.wire), aad, h.out)
    ensures h.out == plain
  {
    hide Mask;
    assert WireNonce(Packet(c, key, nonce, aad, plain)) == nonce;
    var n := PREFIX_SIZE;
    assert |h.out| == |plain|;
    assert h.wire[n..n + |plain|] == Mask(c, key, nonce, 0, plain) == Mask(c, key, nonce, 0, h.out);
    MaskTwice(c, key, nonce, 0, plain);
    MaskTwice(c, key, nonce, 0, h.out);
  }

  lemma {:induction false} DecryptorUpdatesRun(c: Cipher, s: Option<Impl>, h: Reading, cuts: seq<Bytes>, tag: Tag)
    requires EachFits(cuts) && s.Some? && s.value.phase == Active && s.value.context.Some?
    requires tag == s.value.context.value.Feed(Concat(cuts)).Tag(c)
    ensures var (_, seen) := DecryptorRun(c, s, h, DecryptorUpdates(cuts) + [DFinalize(tag)]);
            seen.finals == h.finals + 1 && seen.fed == h.fed + Concat(cuts) && seen.wire == h.wire + Concat(cuts) + tag
    decreases |cuts|
  {
    hide DecryptorStep, Mask;
    var calls := DecryptorUpdates(cuts) + [DFinalize(tag)];
    var i, context := s.value, s.value.context.value;
    if cuts == [] {
      assert calls[0] == DFinalize(tag) && calls[1..] == [];
      assert context.Feed([]) == context;
      DecryptorAccepts(c, i, context, tag);
    } else {
      assert calls[0] == DUpdate(cuts[0]) && calls[1..] == DecryptorUpdates(cuts[1..]) + [DFinalize(tag)];
      DecryptorFeeds(c, i, context, cuts[0]);
      assert context.Feed(cuts[0]).Feed(Concat(cuts[1..])) == context.Feed(Concat(cuts)) by {
        assert context.text + cuts[0] + Concat(cuts[1..]) == context.text + Concat(cuts);
      }
      var (next, reply) := DecryptorStep(c, s, calls[0]);
      DecryptorUpdatesRun(c, next, ObserveDecryptor(h, calls[0], reply), cuts[1..], tag);
    }
  }

  lemma {:induction false} DecryptorFeeds(c: Cipher, i: Impl, context: GcmContext, text: Bytes)
    requires i.phase == Active && i.context == Some(context) && |text| <= INT_MAX
    ensures DecryptorStep(c, Some(i), DUpdate(text))
            == (Some(i.(context := Some(context.Feed(text)))), Ok(context.MaskNext(c, text)))
  {
  }

  lemma {:induction false} DecryptorAccepts(c: Cipher, i: Impl, context: GcmContext, tag: Tag)
    requires i.phase == Active && i.context == Some(context) && tag == context.Tag(c)
    ensures DecryptorStep(c, Some(i), DFinalize(tag)) == (Some(i.(context := None, phase := Finished)), Ok([]))
  {
  }
}
