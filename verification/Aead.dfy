/** One-shot packet encryption and decryption, composed from the streaming objects. */
module Aead {
  import opened ByteStrings
  import opened Gcm
  import opened PacketStream

  method Encrypt(cipher: Cipher, plain: Bytes, key: Key, aad: Bytes, entropy: Option<Nonce>) returns (r: Result<Bytes>)
    ensures r == if |aad| > INT_MAX then Err(InvalidInput)
                 else if entropy == None then Err(BackendFailure)
                 else if |plain| > INT_MAX then Err(InvalidInput)
                 else Ok(Packet(cipher, key, entropy.value, aad, plain))
  {
    var created := PacketEncryptor.Create(cipher, key, aad);
    if created.Err? {
      return Err(created.error);
    }
    var encryptor := created.value;
    var packet := encryptor.Begin(entropy);
    if packet.Err? {
      return packet;
    }
    var text := encryptor.Update(plain);
    if text.Err? {
      return text;
    }
    assert [] + text.value == text.value;
    var tag := encryptor.Finalize();
    if tag.Err? {
      return tag;
    }
    return Ok(packet.value + text.value + tag.value);
  }

  predicate ValidPacket(packet: Bytes) {
    |packet| >= OVERHEAD && ValidPrefix(packet[..PREFIX_SIZE])
  }

  /** What decryption returns for each byte string: the checks in the order they are made. */
  function DecryptResult(c: Cipher, packet: Bytes, key: Key, aad: Bytes): Result<Bytes> {
    if !ValidPacket(packet) then Err(InvalidPacket)
    else if |aad| > INT_MAX then Err(InvalidInput)
    else if |packet| - OVERHEAD > INT_MAX then Err(InvalidInput)
    else
      var nonce, text := packet[5..PREFIX_SIZE], packet[PREFIX_SIZE..|packet| - TAG_SIZE];
      var tag := packet[|packet| - TAG_SIZE..];
      if tag != c.tag(key, nonce, HEADER + aad, text) then Err(AuthenticationFailed)
      else Ok(Mask(c, key, nonce, 0, text))
  }

  method Decrypt(cipher: Cipher, packet: Bytes, key: Key, aad: Bytes) returns (r: Result<Bytes>)
    ensures r == DecryptResult(cipher, packet, key, aad)
  {
    if !ValidPacket(packet) {
      return Err(InvalidPacket);
    }
    var prefix := packet[..PREFIX_SIZE];
    var text := packet[PREFIX_SIZE..PREFIX_SIZE + (|packet| - OVERHEAD)];
    var tag := packet[|packet| - TAG_SIZE..];
    assert prefix[5..] == packet[5..PREFIX_SIZE];
    var created := PacketDecryptor.Create(cipher, key, aad);
    if created.Err? {
      return Err(created.error);
    }
    var decryptor := created.value;
    var begun := decryptor.Begin(prefix);
    if begun.Err? {
      return begun;
    }
    var plain := decryptor.Update(text);
    if plain.Err? {
      return plain;
    }
    assert [] + text == text;
    var trailing := decryptor.Finalize(tag);
    if trailing.Err? {
      return trailing;
    }
    assert plain.value + trailing.value == plain.value;
    return Ok(plain.value + trailing.value);
  }

  /**
   * Exact acceptance: a byte string decrypts to `plain` if and only if it is the packet of
   * `plain` under some nonce and no part exceeds a backend call; it is then 33 bytes longer.
   */
  lemma {:induction false} PacketAcceptance(c: Cipher, packet: Bytes, key: Key, aad: Bytes, plain: Bytes)
    ensures DecryptResult(c, packet, key, aad) == Ok(plain) <==>
            |aad| <= INT_MAX && |plain| <= INT_MAX
            && exists nonce: Nonce :: packet == Packet(c, key, nonce, aad, plain)
    ensures DecryptResult(c, packet, key, aad) == Ok(plain) ==> |packet| == |plain| + OVERHEAD
  {
    if DecryptResult(c, packet, key, aad) == Ok(plain) {
      var nonce: Nonce := packet[5..PREFIX_SIZE];
      var text, tag := packet[PREFIX_SIZE..|packet| - TAG_SIZE], packet[|packet| - TAG_SIZE..];
      MaskTwice(c, key, nonce, 0, text);
      var p := packet[..PREFIX_SIZE];
      assert p == p[..4] + [p[4]] + p[5..] == Prefix(nonce);
      assert packet == p + text + tag;
      assert packet == Packet(c, key, nonce, aad, plain);
    }
    if nonce: Nonce :| packet == Packet(c, key, nonce, aad, plain) {
      var text := Mask(c, key, nonce, 0, plain);
      MaskTwice(c, key, nonce, 0, plain);
      assert |packet| == |plain| + OVERHEAD;
      assert packet[..PREFIX_SIZE] == Prefix(nonce) && Prefix(nonce)[..4] == HEADER[..4];
      assert packet[5..PREFIX_SIZE] == nonce;
      assert packet[PREFIX_SIZE..|packet| - TAG_SIZE] == text;
      assert packet[|packet| - TAG_SIZE..] == c.tag(key, nonce, HEADER + aad, text);
      assert packet[..PREFIX_SIZE][4] == HEADER[4];
    }
  }

  /** What decryption returns for every byte string, told by its bytes: each error, or the text. */
  lemma {:induction false} DecryptVerdict(c: Cipher, packet: Bytes, key: Key, aad: Bytes)
    ensures var n := |packet|;
            var header := [0x53, 0x4B, 0x54, 0x31, 1];
            match DecryptResult(c, packet, key, aad)
            case Ok(plain) =>
              && n >= 33 && packet[..5] == header && |aad| <= 0x7FFF_FFFF && n - 33 <= 0x7FFF_FFFF
              && packet[n - 16..] == c.tag(key, packet[5..17], header + aad, packet[17..n - 16])
              && FlippedBy(c, key, packet[5..17], 0, packet[17..n - 16], plain)
            case Err(AuthenticationFailed) =>
              && n >= 33 && packet[..5] == header && |aad| <= 0x7FFF_FFFF && n - 33 <= 0x7FFF_FFFF
              && packet[n - 16..] != c.tag(key, packet[5..17], header + aad, packet[17..n - 16])
            case Err(InvalidInput) =>
              n >= 33 && packet[..5] == header && (|aad| > 0x7FFF_FFFF || n - 33 > 0x7FFF_FFFF)
            case Err(e) => e == InvalidPacket && (n < 33 || packet[..5] != header)
  {
    hide Mask, FlippedBy;
    if |packet| >= 33 {
      assert packet[..5] == packet[..17][..4] + [packet[..17][4]];
      assert packet[..5][..4] == packet[..17][..4];
      var text := packet[17..|packet| - 16];
      MaskFlips(c, key, packet[5..17], 0, text, Mask(c, key, packet[5..17], 0, text));
    }
  }

  /** The three slices of a long enough packet reassemble to the whole packet. */
  lemma {:induction false} SlicesReassemble(packet: Bytes)
    requires |packet| >= OVERHEAD
    ensures packet[..PREFIX_SIZE] + packet[PREFIX_SIZE..PREFIX_SIZE + (|packet| - OVERHEAD)]
            + packet[|packet| - TAG_SIZE..]
            == packet
  {
  }
}
