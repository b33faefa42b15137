/** The Obfuscated2 handshake handler (Obfuscated2Handshaker.java): a per-connection
    object that either sends a client handshake when the channel becomes active or
    accumulates a server handshake from the incoming bytes, and then replaces
    itself with the codec. Its effects on the channel are recorded as events; the
    handshake promise is a field. */
module Handshaker {
  import opened Common
  import Utils
  import Buffers
  import Aesctr
  import Handshake
  import opened Pipeline
  import Peers

  /** The handshake promise: not yet created (`null` before `handlerAdded`),
      pending, or completed one way or the other. */
  datatype Promise = Unset | Pending | Succeeded | Failed

  /** What one server-side read achieved. */
  datatype ReadOutcome =
    | Waiting              // fewer than 64 handshake bytes so far
    | Rejected             // 64 bytes, but the decrypted magic is wrong: the channel is closed
    | Accepted(dc: int)    // 64 bytes with the magic; `dc` is the datacenter number read

  /** How a complete handshake ends: rejected when the magic is wrong,
      accepted with the datacenter number otherwise. */
  function Verdict(parsed: Option<int>): (o: ReadOutcome)
    ensures !o.Waiting?
    ensures o.Rejected? <==> parsed.None?
    ensures o.Accepted? ==> parsed == Some(o.dc)
  {
    match parsed
    case None => Rejected
    case Some(dc) => Accepted(dc)
  }

  /** The model's stand-in for `ThreadLocalRandom.nextBytes(dst)`: fills `dst`
      with the next block the generator offers. */
  method NextBytes(dst: array<bv8>, block: Bytes)
    requires |block| == dst.Length
    modifies dst
    ensures dst[..] == block
  {
    forall k | 0 <= k < dst.Length {
      dst[k] := block[k];
    }
  }

  /** One direction of `setupCiphers`: copies the 32-byte key at `keyAt` and the
      16-byte IV at `ivAt` out of the handshake into fresh arrays, reverses both
      in place for the reverse direction, and builds the cipher with the secret.
      Both arrays have the lengths `fromKeyAndSecret` accepts, so it cannot fail. */
  method DirectionCipher(aes: Aesctr.BlockCipher, sha: Aesctr.Sha256, hs: Buffers.ByteBuf, keyAt: nat, ivAt: nat,
                         reversed: bool, secret: Option<Bytes>) returns (c: Aesctr.AESCTR)
    requires keyAt + 32 <= hs.data.Length && ivAt + 16 <= hs.data.Length
    ensures c.Valid() && fresh(c.Repr) && c.aes == aes && c.position == 0
    ensures c.key == Aesctr.EffectiveKey(sha, Oriented(hs.data[keyAt..keyAt + 32], reversed), secret)
    ensures c.iv == Oriented(hs.data[ivAt..ivAt + 16], reversed)
  {
    var key := new bv8[Handshake.KEY_LENGTH];
    var iv := new bv8[Handshake.IV_LENGTH];
    hs.GetBytes(keyAt, key);
    hs.GetBytes(ivAt, iv);
    if reversed {
      Utils.Reverse(key);
      Utils.Reverse(iv);
    }
    var r := Aesctr.FromKeyAndSecret(aes, sha, key, iv[..], secret);
    c := r.value;
  }

  /** `s`, or `s` read backwards. */
  function Oriented(s: Bytes, reversed: bool): (r: Bytes)
    ensures |r| == |s|
  {
    if reversed then Utils.Reversed(s) else s
  }

  /** The client's do-while loop: fills `randomData` with the generator's next
      block until one passes the signature check. It stops at the first accepted
      block, or with `None` when the finite generator runs out. */
  method DrawRandom(randomData: array<bv8>, candidates: seq<Bytes>) returns (chosen: Option<nat>)
    requires randomData.Length == Handshake.HANDSHAKE_LENGTH
    requires forall i :: 0 <= i < |candidates| ==> |candidates[i]| == Handshake.HANDSHAKE_LENGTH
    modifies randomData
    ensures chosen == Handshake.FirstAccepted(candidates)
    ensures chosen.Some? ==> randomData[..] == candidates[chosen.value]
  {
    var i := 0;
    var accepted := false;
    while i < |candidates| && !accepted
      invariant 0 <= i <= |candidates|
      invariant forall j :: 0 <= j < i - 1 ==> Handshake.CheckForSignatures(candidates[j])
      invariant i > 0 ==> randomData[..] == candidates[i - 1]
      invariant i > 0 ==> (accepted <==> !Handshake.CheckForSignatures(candidates[i - 1]))
      invariant i == 0 ==> !accepted
    {
      NextBytes(randomData, candidates[i]);
      accepted := !Handshake.CheckForSignatures(randomData[..]);
      i := i + 1;
    }
    chosen := if accepted then Some(i - 1) else None;
  }

  /** The header of a client packet: the magic little-endian at 56 through
      `intToLittleEndian` on the backing array, then the datacenter number at 60
      by moving the writer index there, writing a short and moving it back. */
  method WriteHeader(randomBuf: Buffers.ByteBuf, dc: int)
    requires randomBuf.Valid() && randomBuf.data.Length == Handshake.HANDSHAKE_LENGTH
    requires randomBuf.readerIndex == 0 && randomBuf.writerIndex == Handshake.HANDSHAKE_LENGTH
    modifies randomBuf, randomBuf.data
    ensures randomBuf.Valid() && randomBuf.readerIndex == 0 && randomBuf.writerIndex == Handshake.HANDSHAKE_LENGTH
    ensures randomBuf.data[..] == Handshake.ClientPlain(old(randomBuf.data[..]), dc)
  {
    ghost var random := randomBuf.data[..];
    Utils.IntToLittleEndian(Handshake.PROXY_MAGIC_VALUE, randomBuf.data, Handshake.PROTOCOL_SIGNATURE_OFFSET);
    ghost var withMagic := randomBuf.data[..];

    randomBuf.MarkWriterIndex();
    randomBuf.SetWriterIndex(Handshake.PROTOCOL_SIGNATURE_OFFSET + Handshake.PROTOCOL_SIGNATURE_LENGTH);
    randomBuf.WriteShortLE(dc);
    randomBuf.ResetWriterIndex();

    assert randomBuf.data[..] == Handshake.ClientPlain(random, dc) by {
      assert withMagic == random[..56] + Utils.LittleEndianBytes(Handshake.PROXY_MAGIC_VALUE) + random[60..];
      assert randomBuf.data[..] == withMagic[..60] + Buffers.ShortLittleEndianBytes(dc) + withMagic[62..];
      assert withMagic[..60] == random[..56] + Utils.LittleEndianBytes(Handshake.PROXY_MAGIC_VALUE);
      assert withMagic[62..] == random[62..];
    }
  }

  /** The server's reading of the decrypted handshake: skips to byte 56, reads
      the little-endian word there and, when it is the magic, the sign-extended
      short that follows. */
  method ReadHeader(hb: Buffers.ByteBuf) returns (magicFound: bool, dc: Int32)
    requires hb.Valid() && hb.readerIndex == 0 && hb.writerIndex == Handshake.HANDSHAKE_LENGTH
    modifies hb`readerIndex
    ensures hb.Valid()
    ensures magicFound <==> Utils.LittleEndianToInt(hb.data[..], Handshake.PROTOCOL_SIGNATURE_OFFSET) == Handshake.PROXY_MAGIC_VALUE
    ensures magicFound ==> dc == Buffers.ShortFromLittleEndian(hb.data[60], hb.data[61])
  {
    dc := 0;
    hb.SkipBytes(Handshake.PROTOCOL_SIGNATURE_OFFSET);
    var protocolSignature := hb.ReadIntLE();
    magicFound := protocolSignature == Handshake.PROXY_MAGIC_VALUE;
    if magicFound {
      dc := hb.ReadShortLE();
    }
  }

  /** The keys and IVs a handshake gives the two ciphers, given the plaintext
      packet: the client encrypts with the forward parameters and decrypts with
      the reverse ones, the server the other way round; the two ciphers share no
      storage. These are construction-time facts, independent of the state. */
  ghost predicate Matched(aes: Aesctr.BlockCipher, sha: Aesctr.Sha256, secret: Option<Bytes>, isClient: bool,
                          enc: Aesctr.AESCTR, dec: Aesctr.AESCTR, plain: Bytes)
    requires |plain| >= Handshake.HANDSHAKE_LENGTH
  {
    var f := Handshake.ForwardParams(sha, secret, plain);
    var r := Handshake.ReverseParams(sha, secret, plain);
    var (out, into) := if isClient then (f, r) else (r, f);
    && enc.Repr !! dec.Repr
    && enc.aes == aes && enc.key == out.key && enc.iv == out.iv
    && dec.aes == aes && dec.key == into.key && dec.iv == into.iv
  }

  /** The ciphers a handshake leaves for the codec: matched to the packet, both
      usable, the direction this side has used for the handshake at keystream
      position `sent` and the other one unused. */
  ghost predicate CiphersAfter(aes: Aesctr.BlockCipher, sha: Aesctr.Sha256, secret: Option<Bytes>, isClient: bool,
                               enc: Aesctr.AESCTR, dec: Aesctr.AESCTR, plain: Bytes, sent: nat)
    requires |plain| >= Handshake.HANDSHAKE_LENGTH
    reads enc, enc.counter, enc.gamma, dec, dec.counter, dec.gamma
  {
    && Matched(aes, sha, secret, isClient, enc, dec, plain)
    && enc.Valid() && dec.Valid()
    && (if isClient then enc.position == sent && dec.position == 0
        else enc.position == 0 && dec.position == sent)
  }

  /** `setupCiphers(hs)`: copies the forward key (8..40), the forward IV
      (40..56), the reverse key (24..56) and the reverse IV (8..24) out of the
      buffer, reverses the last two in place, and builds both ciphers with the
      secret; a client encrypts with the forward one, a server with the reverse
      one. The buffer itself is not changed. The handler assigns the pair to its
      `encrypter` and `decrypter` fields. */
  method SetupCiphers(aes: Aesctr.BlockCipher, sha: Aesctr.Sha256, secret: Option<Bytes>, isClient: bool,
                      hs: Buffers.ByteBuf) returns (enc: Aesctr.AESCTR, dec: Aesctr.AESCTR)
    requires hs.data.Length == Handshake.HANDSHAKE_LENGTH
    ensures fresh(enc.Repr) && fresh(dec.Repr)
    ensures CiphersAfter(aes, sha, secret, isClient, enc, dec, hs.data[..], 0)
  {
    ghost var bytes := hs.data[..];
    var forward := DirectionCipher(aes, sha, hs, Handshake.KEY_IV_OFFSET, Handshake.KEY_IV_OFFSET + Handshake.KEY_LENGTH,
                                   false, secret);
    ghost var f := Handshake.ForwardParams(sha, secret, bytes);
    assert forward.key == f.key && forward.iv == f.iv by {
      assert hs.data[8..40] == bytes[8..40] && hs.data[40..56] == bytes[40..56];
    }
    var reverse := DirectionCipher(aes, sha, hs, Handshake.KEY_IV_OFFSET + Handshake.IV_LENGTH, Handshake.KEY_IV_OFFSET,
                                   true, secret);
    ghost var r := Handshake.ReverseParams(sha, secret, bytes);
    assert reverse.key == r.key && reverse.iv == r.iv by {
      assert hs.data[24..56] == bytes[24..56] && hs.data[8..24] == bytes[8..24];
    }
    if isClient {
      enc, dec := forward, reverse;
    } else {
      enc, dec := reverse, forward;
    }
  }

  /** The client's encryption of its packet: ciphers from the plaintext, the
      keystream skipped to position 56, then bytes 56..64 encrypted in place. */
  method EncryptClientPacket(aes: Aesctr.BlockCipher, sha: Aesctr.Sha256, secret: Option<Bytes>,
                             randomBuf: Buffers.ByteBuf, ghost plain: Bytes)
                             returns (enc: Aesctr.AESCTR, dec: Aesctr.AESCTR)
    requires |plain| == Handshake.HANDSHAKE_LENGTH && randomBuf.data[..] == plain
    modifies randomBuf.data
    ensures fresh(enc.Repr) && fresh(dec.Repr)
    ensures CiphersAfter(aes, sha, secret, true, enc, dec, plain, Handshake.HANDSHAKE_LENGTH)
    ensures var f := Handshake.ForwardParams(sha, secret, plain);
            randomBuf.data[..] == plain[..56] + Aesctr.Apply(aes, f.key, f.iv, 56, plain[56..])
  {
    assert plain[56..64] == plain[56..] && plain[64..] == [];
    enc, dec := SetupCiphers(aes, sha, secret, true, randomBuf);
    SkipKeeping(enc, dec, Handshake.PROTOCOL_SIGNATURE_OFFSET);
    ProcessRangeKeeping(enc, dec, randomBuf, Handshake.PROTOCOL_SIGNATURE_OFFSET,
                        Handshake.HANDSHAKE_LENGTH - Handshake.PROTOCOL_SIGNATURE_OFFSET);
  }

  /** The server's ciphers from the received handshake, then all 64 bytes
      decrypted in place from keystream position 0. */
  method DecryptHandshake(aes: Aesctr.BlockCipher, sha: Aesctr.Sha256, secret: Option<Bytes>, hb: Buffers.ByteBuf,
                          ghost hs: Bytes)
                          returns (enc: Aesctr.AESCTR, dec: Aesctr.AESCTR)
    requires hb.Valid() && hb.data.Length == Handshake.HANDSHAKE_LENGTH && hb.data[..] == hs
    requires hb.readerIndex == 0 && hb.writerIndex == Handshake.HANDSHAKE_LENGTH
    modifies hb.data
    ensures fresh(enc.Repr) && fresh(dec.Repr)
    ensures CiphersAfter(aes, sha, secret, false, enc, dec, hs, Handshake.HANDSHAKE_LENGTH)
    ensures var f := Handshake.ForwardParams(sha, secret, hs);
            hb.data[..] == Aesctr.Apply(aes, f.key, f.iv, 0, hs)
  {
    assert hs[0..64] == hs && hs[..0] == [] && hs[64..] == [];
    enc, dec := SetupCiphers(aes, sha, secret, false, hb);
    ProcessRangeKeeping(dec, enc, hb, 0, Handshake.HANDSHAKE_LENGTH);
  }

  /** The server's steps on a complete handshake before it acts on the
      outcome: ciphers, decryption, and the reading of the magic and the
      datacenter number. */
  method DecryptAndReadHeader(aes: Aesctr.BlockCipher, sha: Aesctr.Sha256, secret: Option<Bytes>, hb: Buffers.ByteBuf,
                              ghost hs: Bytes)
                              returns (enc: Aesctr.AESCTR, dec: Aesctr.AESCTR, magicFound: bool, dc: Int32)
    requires hb.Valid() && hb.data.Length == Handshake.HANDSHAKE_LENGTH && hb.data[..] == hs
    requires hb.readerIndex == 0 && hb.writerIndex == Handshake.HANDSHAKE_LENGTH
    modifies hb`readerIndex, hb.data
    ensures hb.Valid()
    ensures fresh(enc.Repr) && fresh(dec.Repr)
    ensures CiphersAfter(aes, sha, secret, false, enc, dec, hs, Handshake.HANDSHAKE_LENGTH)
    ensures !magicFound <==> Handshake.ServerParse(aes, sha, secret, hs).None?
    ensures magicFound ==> Handshake.ServerParse(aes, sha, secret, hs) == Some(dc)
  {
    enc, dec := DecryptHandshake(aes, sha, secret, hb, hs);
    magicFound, dc := ReadHeader(hb);
  }

  /** `c.skipGamma(n)` with a second, independent cipher beside it that does
      not move. */
  method SkipKeeping(c: Aesctr.AESCTR, other: Aesctr.AESCTR, n: int)
    requires c.Valid() && other.Valid() && c.Repr !! other.Repr
    modifies c`gammaPos, c`position, c.counter, c.gamma
    ensures c.Valid() && c.position == old(c.position) + (if n > 0 then n else 0)
    ensures other.Valid() && other.position == old(other.position)
  {
    c.SkipGamma(n);
  }

  /** `c.processBuffer(buf, offset, length)` with a second, independent cipher
      beside it that does not move. */
  method ProcessRangeKeeping(c: Aesctr.AESCTR, other: Aesctr.AESCTR, buf: Buffers.ByteBuf, offset: nat, length: nat)
    requires c.Valid() && other.Valid() && c.Repr !! other.Repr
    requires buf.data !in c.Repr && buf.data !in other.Repr && offset + length <= buf.data.Length
    modifies c`gammaPos, c`position, c.counter, c.gamma, buf.data
    ensures c.Valid() && c.position == old(c.position) + length
    ensures other.Valid() && other.position == old(other.position)
    ensures buf.data[..] == old(buf.data[..offset])
                            + Aesctr.Apply(c.aes, c.key, c.iv, old(c.position), old(buf.data[offset..offset + length]))
                            + old(buf.data[offset + length..])
  {
    c.ProcessByteBufRange(buf, offset, length);
  }

  class Obfuscated2Handshaker {
    /** The AES block function and SHA-256, supplied from outside the model. */
    const aes: Aesctr.BlockCipher
    const sha: Aesctr.Sha256
    const isClient: bool
    const secret: Option<Bytes>
    const datacenterNumber: int
    var handshakeBuffer: Buffers.ByteBuf?
    var encrypter: Aesctr.AESCTR?
    var decrypter: Aesctr.AESCTR?
    var promise: Promise

    /** `new Obfuscated2Handshaker(isClient, secret)`: datacenter number 0. */
    constructor (aes: Aesctr.BlockCipher, sha: Aesctr.Sha256, isClient: bool, secret: Option<Bytes>)
      ensures this.aes == aes && this.sha == sha && this.isClient == isClient && this.secret == secret
      ensures datacenterNumber == 0
      ensures handshakeBuffer == null && encrypter == null && decrypter == null && promise == Unset
    {
      this.aes, this.sha := aes, sha;
      this.isClient := isClient;
      this.secret := secret;
      this.datacenterNumber := 0;
      handshakeBuffer, encrypter, decrypter := null, null, null;
      promise := Unset;
    }

    /** `new Obfuscated2Handshaker(secret, datacenterNumber)`: always a client. */
    constructor Client(aes: Aesctr.BlockCipher, sha: Aesctr.Sha256, secret: Option<Bytes>, datacenterNumber: Int32)
      ensures this.aes == aes && this.sha == sha && isClient && this.secret == secret
      ensures this.datacenterNumber == datacenterNumber
      ensures handshakeBuffer == null && encrypter == null && decrypter == null && promise == Unset
    {
      this.aes, this.sha := aes, sha;
      this.isClient := true;
      this.secret := secret;
      this.datacenterNumber := datacenterNumber;
      handshakeBuffer, encrypter, decrypter := null, null, null;
      promise := Unset;
    }

    /** `fromPeer(pr, datacenterNumber)`: a client handshaker that uses the
        peer's secret, or no secret for a direct peer (`fromPeer(pr)` passes
        datacenter 0). */
    static method FromPeer(aes: Aesctr.BlockCipher, sha: Aesctr.Sha256, pr: Peers.PeerRecord, datacenterNumber: Int32)
      returns (h: Obfuscated2Handshaker)
      ensures fresh(h) && h.aes == aes && h.sha == sha
      ensures h.isClient && h.secret == pr.secret && h.datacenterNumber == datacenterNumber
      ensures h.handshakeBuffer == null && h.encrypter == null && h.decrypter == null && h.promise == Unset
    {
      h := new Obfuscated2Handshaker.Client(aes, sha, pr.secret, datacenterNumber);
    }

    /** The server side is ready to read: its 64-byte accumulation buffer exists. */
    ghost predicate ServerReady()
      reads this`handshakeBuffer
    {
      !isClient && handshakeBuffer != null && handshakeBuffer.data.Length == Handshake.HANDSHAKE_LENGTH
    }

    /** `handlerAdded`: a server allocates its fixed 64-byte buffer; both sides
        create the promise. */
    method HandlerAdded()
      modifies this`handshakeBuffer, this`promise
      ensures promise == Pending
      ensures !isClient ==> ServerReady() && handshakeBuffer.Valid() && fresh(handshakeBuffer) && fresh(handshakeBuffer.data)
                            && handshakeBuffer.readerIndex == 0 && handshakeBuffer.writerIndex == 0
      ensures isClient ==> handshakeBuffer == old(handshakeBuffer)
    {
      if !isClient {
        handshakeBuffer := new Buffers.ByteBuf.Allocate(Handshake.HANDSHAKE_LENGTH);
      }
      promise := Pending;
    }

    /** `handlerRemoved`: the accumulation buffer, if any, is released and
        dropped. */
    method HandlerRemoved()
      modifies this`handshakeBuffer
      ensures handshakeBuffer == null
    {
      if handshakeBuffer != null {
        handshakeBuffer := null;
      }
    }

    /** `channelActive` on the client side: draws random 64-byte blocks until one
        passes the signature check, writes the magic at 56 and the datacenter
        number at 60, derives the ciphers, encrypts bytes 56..64 at keystream
        positions 56..64, sends the packet and replaces itself with the codec.
        The generator is the sequence `candidates`; if it runs out before a block
        is accepted, the model stops there with nothing sent. A server does
        nothing here. */
    method ChannelActive(ch: Channel, candidates: seq<Bytes>) returns (chosen: Option<nat>, packet: Buffers.ByteBuf?)
      requires forall i :: 0 <= i < |candidates| ==> |candidates[i]| == Handshake.HANDSHAKE_LENGTH
      requires promise == Pending
      modifies this`encrypter, this`decrypter, this`promise, ch`events
      ensures !isClient ==> chosen == None && packet == null && ch.events == old(ch.events)
                            && promise == Pending && unchanged(this`encrypter, this`decrypter)
      ensures isClient ==> chosen == Handshake.FirstAccepted(candidates)
      ensures chosen.None? ==> ch.events == old(ch.events) && promise == Pending && packet == null
      ensures chosen.Some? ==>
        && packet != null && fresh(packet) && packet.Valid()
        && packet.readerIndex == 0 && packet.writerIndex == Handshake.HANDSHAKE_LENGTH
        && packet.data[..] == Handshake.ClientWire(aes, sha, secret, candidates[chosen.value], datacenterNumber)
        && encrypter != null && decrypter != null
        && CiphersAfter(aes, sha, secret, isClient, encrypter, decrypter, Handshake.ClientPlain(candidates[chosen.value], datacenterNumber), Handshake.HANDSHAKE_LENGTH)
        && fresh(encrypter.Repr) && fresh(decrypter.Repr)
        && ch.events == old(ch.events) + [Write(Buf(packet)), ReplaceWithCodec(encrypter, decrypter)]
        && promise == Succeeded
    {
      chosen, packet := None, null;
      if !isClient {
        return;
      }
      var randomData := new bv8[Handshake.HANDSHAKE_LENGTH];
      var randomBuf := new Buffers.ByteBuf.Wrap(randomData);

      chosen := DrawRandom(randomData, candidates);
      if chosen.None? {
        return;
      }
      packet := SendHandshake(ch, randomBuf, candidates[chosen.value]);
    }

    /** The client's steps after an accepted random block: header, ciphers,
        encryption, then the packet written and the codec installed. */
    method SendHandshake(ch: Channel, randomBuf: Buffers.ByteBuf, ghost random: Bytes) returns (packet: Buffers.ByteBuf)
      requires isClient && promise == Pending && |random| == Handshake.HANDSHAKE_LENGTH
      requires randomBuf.Valid() && randomBuf.data.Length == Handshake.HANDSHAKE_LENGTH
      requires randomBuf.readerIndex == 0 && randomBuf.writerIndex == Handshake.HANDSHAKE_LENGTH
      requires randomBuf.data[..] == random
      modifies this`encrypter, this`decrypter, this`promise, ch`events, randomBuf, randomBuf.data
      ensures packet == randomBuf && packet.Valid()
      ensures packet.readerIndex == 0 && packet.writerIndex == Handshake.HANDSHAKE_LENGTH
      ensures packet.data[..] == Handshake.ClientWire(aes, sha, secret, random, datacenterNumber)
      ensures encrypter != null && decrypter != null && fresh(encrypter.Repr) && fresh(decrypter.Repr)
      ensures CiphersAfter(aes, sha, secret, isClient, encrypter, decrypter, Handshake.ClientPlain(random, datacenterNumber), Handshake.HANDSHAKE_LENGTH)
      ensures ch.events == old(ch.events) + [Write(Buf(packet)), ReplaceWithCodec(encrypter, decrypter)]
      ensures promise == Succeeded
    {
      WriteHeader(randomBuf, datacenterNumber);
      ghost var plain := Handshake.ClientPlain(random, datacenterNumber);
      encrypter, decrypter := EncryptClientPacket(aes, sha, secret, randomBuf, plain);
      ClientCompleted(ch, randomBuf);
      packet := randomBuf;
    }

    /** The end of the client handshake: the packet is written, the codec takes
        this handler's place, and the promise succeeds. */
    method ClientCompleted(ch: Channel, packet: Buffers.ByteBuf)
      requires encrypter != null && decrypter != null
      modifies ch`events, this`promise
      ensures ch.events == old(ch.events) + [Write(Buf(packet)), ReplaceWithCodec(encrypter, decrypter)]
      ensures promise == Succeeded
    {
      ch.Record(Write(Buf(packet)));
      ch.Record(ReplaceWithCodec(encrypter, decrypter));
      promise := Succeeded;
    }

    /** `channelRead` on the server side: moves as many bytes as still fit from
        `buf` into the handshake buffer. Once it holds all 64, the ciphers are
        derived from it, the whole buffer is decrypted, and the word at 56 is
        compared with the magic: a mismatch closes the channel; a match replaces
        the handler with the codec, fires the datacenter number and then the rest
        of `buf`, and completes the promise. */
    method ChannelRead(ch: Channel, buf: Buffers.ByteBuf) returns (outcome: ReadOutcome)
      requires ServerReady() && handshakeBuffer.Valid() && promise == Pending
      requires buf.Valid() && buf != handshakeBuffer && buf.data != handshakeBuffer.data
      modifies this`encrypter, this`decrypter, this`promise, ch`events
      modifies handshakeBuffer`readerIndex, handshakeBuffer`writerIndex, handshakeBuffer.data, buf`readerIndex
      ensures ServerReady() && handshakeBuffer == old(handshakeBuffer) && handshakeBuffer.Valid()
      ensures var taken := Min(old(handshakeBuffer.WritableCount()), old(buf.ReadableCount()));
              && buf.readerIndex == old(buf.readerIndex) + taken
              && var complete := old(handshakeBuffer.readerIndex) == 0
                                 && old(handshakeBuffer.writerIndex) + taken == Handshake.HANDSHAKE_LENGTH;
                 && (outcome.Waiting? <==> !complete)
                 && (complete ==>
                       var hs := old(handshakeBuffer.data[..handshakeBuffer.writerIndex])
                                 + old(buf.data[buf.readerIndex..buf.readerIndex + taken]);
                       && |hs| == Handshake.HANDSHAKE_LENGTH
                       && outcome == Verdict(Handshake.ServerParse(aes, sha, secret, hs))
                       && (outcome.Accepted? ==>
                             && encrypter != null && decrypter != null
                             && CiphersAfter(aes, sha, secret, isClient, encrypter, decrypter, hs, Handshake.HANDSHAKE_LENGTH)
                             && fresh(encrypter.Repr) && fresh(decrypter.Repr)))
      ensures outcome.Waiting? ==> ch.events == old(ch.events) && promise == Pending
      ensures outcome.Rejected? ==> ch.events == old(ch.events) + [Close] && promise == Pending
      ensures outcome.Accepted? ==>
                && encrypter != null && decrypter != null
                && ch.events == old(ch.events) + [ReplaceWithCodec(encrypter, decrypter),
                                                  Fire(HandshakeCompleted(outcome.dc)), Fire(Buf(buf))]
                && promise == Succeeded
    {
      var hs := Accumulate(buf);
      if handshakeBuffer.ReadableCount() != Handshake.HANDSHAKE_LENGTH {
        return Waiting;
      }
      outcome := ServerHandshake(ch, buf, hs);
    }

    /** The copying step of `channelRead`: as many bytes as still fit move from
        `buf` to the end of the handshake buffer; `hs` is what the buffer then
        holds up to its writer index. */
    method Accumulate(buf: Buffers.ByteBuf) returns (ghost hs: Bytes)
      requires ServerReady() && handshakeBuffer.Valid()
      requires buf.Valid() && buf != handshakeBuffer && buf.data != handshakeBuffer.data
      modifies handshakeBuffer`writerIndex, handshakeBuffer.data, buf`readerIndex
      ensures handshakeBuffer.Valid()
      ensures var taken := Min(old(handshakeBuffer.WritableCount()), old(buf.ReadableCount()));
              && buf.readerIndex == old(buf.readerIndex) + taken
              && handshakeBuffer.readerIndex == old(handshakeBuffer.readerIndex)
              && handshakeBuffer.writerIndex == old(handshakeBuffer.writerIndex) + taken
              && hs == old(handshakeBuffer.data[..handshakeBuffer.writerIndex])
                       + old(buf.data[buf.readerIndex..buf.readerIndex + taken])
      ensures handshakeBuffer.writerIndex == Handshake.HANDSHAKE_LENGTH ==> handshakeBuffer.data[..] == hs
    {
      var hb := handshakeBuffer;
      var toRead := Min(hb.WritableCount(), buf.ReadableCount());
      hs := hb.data[..hb.writerIndex] + buf.data[buf.readerIndex..buf.readerIndex + toRead];
      buf.ReadBytesInto(hb, toRead);
      if hb.writerIndex == Handshake.HANDSHAKE_LENGTH {
        assert hb.data[..] == hs;
      }
    }

    /** The server's handling of a complete handshake: decrypt, check the magic,
        and either close the channel or install the codec. */
    method ServerHandshake(ch: Channel, buf: Buffers.ByteBuf, ghost hs: Bytes) returns (outcome: ReadOutcome)
      requires ServerReady() && handshakeBuffer.Valid() && promise == Pending
      requires handshakeBuffer.readerIndex == 0 && handshakeBuffer.writerIndex == Handshake.HANDSHAKE_LENGTH
      requires handshakeBuffer.data[..] == hs
      modifies this`encrypter, this`decrypter, this`promise, ch`events, handshakeBuffer`readerIndex, handshakeBuffer.data
      ensures handshakeBuffer.Valid()
      ensures outcome == Verdict(Handshake.ServerParse(aes, sha, secret, hs))
      ensures outcome.Accepted? ==>
                && encrypter != null && decrypter != null
                && CiphersAfter(aes, sha, secret, isClient, encrypter, decrypter, hs, Handshake.HANDSHAKE_LENGTH)
                && fresh(encrypter.Repr) && fresh(decrypter.Repr)
      ensures outcome.Rejected? ==> ch.events == old(ch.events) + [Close] && promise == Pending
      ensures outcome.Accepted? ==>
                && encrypter != null && decrypter != null
                && ch.events == old(ch.events) + [ReplaceWithCodec(encrypter, decrypter),
                                                  Fire(HandshakeCompleted(outcome.dc)), Fire(Buf(buf))]
                && promise == Succeeded
    {
      var enc, dec, magicFound, dcIndex := DecryptAndReadHeader(aes, sha, secret, handshakeBuffer, hs);
      if !magicFound {
        ServerRejected(ch, enc, dec);
        return Rejected;
      }
      ServerCompleted(ch, buf, enc, dec, dcIndex);
      return Accepted(dcIndex);
    }

    /** A wrong magic: the ciphers stay in the fields and the channel is closed. */
    method ServerRejected(ch: Channel, enc: Aesctr.AESCTR, dec: Aesctr.AESCTR)
      modifies this`encrypter, this`decrypter, ch`events
      ensures encrypter == enc && decrypter == dec
      ensures ch.events == old(ch.events) + [Close]
    {
      encrypter, decrypter := enc, dec;
      ch.Record(Close);
    }

    /** The end of the server handshake: the codec takes this handler's place,
        the datacenter number and then the rest of the first read go down the
        pipeline, and the promise succeeds. */
    method ServerCompleted(ch: Channel, buf: Buffers.ByteBuf, enc: Aesctr.AESCTR, dec: Aesctr.AESCTR, dc: Int32)
      modifies this`encrypter, this`decrypter, ch`events, this`promise
      ensures encrypter == enc && decrypter == dec
      ensures ch.events == old(ch.events) + [ReplaceWithCodec(enc, dec), Fire(HandshakeCompleted(dc)), Fire(Buf(buf))]
      ensures promise == Succeeded
    {
      encrypter, decrypter := enc, dec;
      ch.Record(ReplaceWithCodec(enc, dec));
      ch.Record(Fire(HandshakeCompleted(dc)));
      ch.Record(Fire(Buf(buf)));
      promise := Succeeded;
    }

    /** `exceptionCaught`: closes the channel and fails the promise. Failing a
        promise that was never created, or one already completed, throws. */
    method ExceptionCaught(ch: Channel) returns (thrown: Option<Exception>)
      modifies this`promise, ch`events
      ensures ch.events == old(ch.events) + [Close]
      ensures old(promise) == Pending ==> promise == Failed && thrown == None
      ensures old(promise) == Unset ==> promise == Unset && thrown == Some(NullPointer)
      ensures old(promise) in {Succeeded, Failed} ==> promise == old(promise) && thrown == Some(IllegalState)
    {
      ch.Record(Close);
      match promise
      case Pending =>
        promise := Failed;
        thrown := None;
      case Unset =>
        thrown := Some(NullPointer);
      case _ =>
        thrown := Some(IllegalState);
    }
  }

  /** `Math.min`. */
  function Min(a: int, b: int): (r: int)
    ensures r <= a && r <= b && (r == a || r == b)
  {
    if a <= b then a else b
  }
}
