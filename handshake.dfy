/** The Obfuscated2 handshake as values: the 64-byte packet a client sends, the
    key material both ends derive from its unencrypted bytes 8..56, and what a
    server reads back from it. The handler that performs these steps in place is
    in the `Handshaker` module. */
module Handshake {
  import opened Common
  import Utils
  import Buffers
  import Aesctr

  const HANDSHAKE_LENGTH: nat := 64
  const PROTOCOL_SIGNATURE_OFFSET: nat := 56
  const PROTOCOL_SIGNATURE_LENGTH: nat := 4
  const KEY_IV_OFFSET: nat := 8
  const KEY_LENGTH: nat := 32
  const IV_LENGTH: nat := 16
  const ABRIDGED_SIGNATURE: bv8 := 0xFE
  const PROXY_MAGIC_VALUE: bv32 := 0xEFEF_EFEF

  // ---------------------------------------------------------------------------
  // Signature rejection
  // ---------------------------------------------------------------------------

  /** The ASCII bytes of "HEAD", "POST", "GET " and "OPTI". */
  const HEAD: Bytes := [0x48, 0x45, 0x41, 0x44]
  const POST: Bytes := [0x50, 0x4F, 0x53, 0x54]
  const GET: Bytes := [0x47, 0x45, 0x54, 0x20]
  const OPTI: Bytes := [0x4F, 0x50, 0x54, 0x49]
  /** The tag that opens an intermediate-transport MTProto stream. */
  const INTERMEDIATE: Bytes := [0xEE, 0xEE, 0xEE, 0xEE]

  /** Opening words a random handshake must not start with, because a receiver
      would take it for HTTP or for plain MTProto. */
  const RESERVED_PREFIXES: set<Bytes> := {HEAD, POST, GET, OPTI, INTERMEDIATE}

  /** The four constants of the little-endian comparison are the reserved
      prefixes read as little-endian words. */
  lemma ReservedWords()
    ensures Utils.LittleEndianBytes(0x4441_4548) == HEAD
    ensures Utils.LittleEndianBytes(0x5453_4F50) == POST
    ensures Utils.LittleEndianBytes(0x2054_4547) == GET
    ensures Utils.LittleEndianBytes(0x4954_504F) == OPTI
    ensures Utils.LittleEndianBytes(0xEEEE_EEEE) == INTERMEDIATE
    ensures Utils.LittleEndianBytes(0) == [0, 0, 0, 0]
  {
  }

  /** A word read from `data` equals a constant exactly when the four bytes
      equal the constant's little-endian bytes. */
  lemma WordIs(data: Bytes, idx: nat, c: bv32)
    requires idx + 4 <= |data|
    ensures Utils.LittleEndianToInt(data, idx) == c <==> data[idx..idx + 4] == Utils.LittleEndianBytes(c)
  {
    Utils.LittleEndianInjective(Utils.LittleEndianToInt(data, idx), c);
  }

  /** `checkForSignatures(data)`: true when the candidate must be drawn again.
      It compares the byte at 0 with the abridged tag, the little-endian word at
      4 with zero, and the little-endian word at 0 with four constants. The
      constants are the reserved prefixes written as little-endian words, so in
      byte order a candidate is rejected exactly when it starts with the
      abridged tag 0xFE, when bytes 4..8 are zero, or when bytes 0..4 are a
      reserved prefix. */
  function CheckForSignatures(data: Bytes): (r: bool)
    requires |data| >= 8
    ensures r <==> data[0] == ABRIDGED_SIGNATURE || data[4..8] == [0, 0, 0, 0] || data[..4] in RESERVED_PREFIXES
  {
    ReservedWords();
    WordIs(data, 4, 0);
    FirstWordReserved(data);
    if data[0] == ABRIDGED_SIGNATURE then true
    else
      var check2 := Utils.LittleEndianToInt(data, 4);
      if check2 == 0 then true
      else
        var check1 := Utils.LittleEndianToInt(data, 0);
        check1 == 0x4441_4548 || check1 == 0x5453_4F50 || check1 == 0x2054_4547 || check1 == 0x4954_504F
          || check1 == 0xEEEE_EEEE
  }

  /** The first word is one of the four compared constants exactly when bytes
      0..4 are a reserved prefix. */
  lemma FirstWordReserved(data: Bytes)
    requires |data| >= 4
    ensures var check1 := Utils.LittleEndianToInt(data, 0);
            (check1 == 0x4441_4548 || check1 == 0x5453_4F50 || check1 == 0x2054_4547 || check1 == 0x4954_504F
             || check1 == 0xEEEE_EEEE)
            <==> data[..4] in RESERVED_PREFIXES
  {
    ReservedWords();
    WordIs(data, 0, 0x4441_4548);
    WordIs(data, 0, 0x5453_4F50);
    WordIs(data, 0, 0x2054_4547);
    WordIs(data, 0, 0x4954_504F);
    WordIs(data, 0, 0xEEEE_EEEE);
    assert data[0..4] == data[..4];
  }

  /** The first candidate the generator offers that passes the signature check:
      where the client's do-while loop stops. */
  function FirstAccepted(candidates: seq<Bytes>): (r: Option<nat>)
    requires forall i :: 0 <= i < |candidates| ==> |candidates[i]| == HANDSHAKE_LENGTH
    ensures r.Some? ==> r.value < |candidates| && !CheckForSignatures(candidates[r.value])
    ensures r.Some? ==> forall i :: 0 <= i < r.value ==> CheckForSignatures(candidates[i])
    ensures r.None? ==> forall i :: 0 <= i < |candidates| ==> CheckForSignatures(candidates[i])
  {
    if candidates == [] then None
    else if !CheckForSignatures(candidates[0]) then Some(0)
    else match FirstAccepted(candidates[1..])
      case None => None
      case Some(k) => Some(k + 1)
  }

  // ---------------------------------------------------------------------------
  // Key material
  // ---------------------------------------------------------------------------

  /** The parameters of one AES-CTR direction. */
  datatype CipherParams = CipherParams(key: Bytes, iv: Block)

  /** The forward direction: key from bytes 8..40, IV from bytes 40..56, the key
      hashed with the secret when there is one. */
  function ForwardParams(sha: Aesctr.Sha256, secret: Option<Bytes>, hs: Bytes): (p: CipherParams)
    requires |hs| >= KEY_IV_OFFSET + KEY_LENGTH + IV_LENGTH
    ensures p.iv == hs[40..56]
    ensures p.key == Aesctr.EffectiveKey(sha, hs[8..40], secret)
  {
    CipherParams(Aesctr.EffectiveKey(sha, hs[KEY_IV_OFFSET..KEY_IV_OFFSET + KEY_LENGTH], secret),
                 hs[KEY_IV_OFFSET + KEY_LENGTH..KEY_IV_OFFSET + KEY_LENGTH + IV_LENGTH])
  }

  /** The reverse direction: key from bytes 24..56 and IV from bytes 8..24, each
      read backwards. */
  function ReverseParams(sha: Aesctr.Sha256, secret: Option<Bytes>, hs: Bytes): (p: CipherParams)
    requires |hs| >= KEY_IV_OFFSET + KEY_LENGTH + IV_LENGTH
    ensures p.iv == Utils.Reversed(hs[8..24])
    ensures p.key == Aesctr.EffectiveKey(sha, Utils.Reversed(hs[24..56]), secret)
  {
    CipherParams(Aesctr.EffectiveKey(sha, Utils.Reversed(hs[KEY_IV_OFFSET + IV_LENGTH..KEY_IV_OFFSET + IV_LENGTH + KEY_LENGTH]), secret),
                 Utils.Reversed(hs[KEY_IV_OFFSET..KEY_IV_OFFSET + IV_LENGTH]))
  }

  /** The reverse key and IV, end to end, are the forward key and IV read
      backwards: one 48-byte string serves both directions. */
  lemma ReverseMaterialIsForwardReversed(hs: Bytes)
    requires |hs| >= 56
    ensures Utils.Reversed(hs[24..56]) + Utils.Reversed(hs[8..24]) == Utils.Reversed(hs[8..40] + hs[40..56])
  {
    assert hs[8..40] + hs[40..56] == hs[8..24] + hs[24..56];
    Utils.ReversedAppend(hs[8..24], hs[24..56]);
  }

  /** Both directions depend only on bytes 8..56 of the handshake. */
  lemma ParamsDependOnKeyMaterialOnly(sha: Aesctr.Sha256, secret: Option<Bytes>, a: Bytes, b: Bytes)
    requires |a| >= 56 && |b| >= 56 && a[8..56] == b[8..56]
    ensures ForwardParams(sha, secret, a) == ForwardParams(sha, secret, b)
    ensures ReverseParams(sha, secret, a) == ReverseParams(sha, secret, b)
  {
    assert a[8..40] == a[8..56][..32] == b[8..56][..32] == b[8..40];
    assert a[40..56] == a[8..56][32..] == b[8..56][32..] == b[40..56];
    assert a[24..56] == a[8..56][16..] == b[8..56][16..] == b[24..56];
    assert a[8..24] == a[8..56][..16] == b[8..56][..16] == b[8..24];
  }

  // ---------------------------------------------------------------------------
  // The client packet and the server's reading of it
  // ---------------------------------------------------------------------------

  /** The client packet before encryption: the accepted random block with the
      magic little-endian at 56..60 and the low 16 bits of the datacenter number
      little-endian at 60..62. */
  function ClientPlain(random: Bytes, dc: int): (p: Bytes)
    requires |random| == HANDSHAKE_LENGTH
    ensures |p| == HANDSHAKE_LENGTH
    ensures p[..56] == random[..56] && p[62..] == random[62..]
    ensures Utils.LittleEndianToInt(p, 56) == PROXY_MAGIC_VALUE
    ensures Buffers.ShortFromLittleEndian(p[60], p[61]) == Buffers.SignExtend16(dc)
  {
    var p := random[..56] + Utils.LittleEndianBytes(PROXY_MAGIC_VALUE) + Buffers.ShortLittleEndianBytes(dc) + random[62..];
    assert p[56..60] == Utils.LittleEndianBytes(PROXY_MAGIC_VALUE);
    Utils.LittleEndianRoundTrip(PROXY_MAGIC_VALUE, p, 56);
    Buffers.ShortRoundTrip(dc);
    p
  }

  /** What the client sends: bytes 0..56 in the clear, bytes 56..64 encrypted with
      the forward cipher at keystream positions 56..64. */
  function ClientWire(aes: Aesctr.BlockCipher, sha: Aesctr.Sha256, secret: Option<Bytes>, random: Bytes, dc: int): (w: Bytes)
    requires |random| == HANDSHAKE_LENGTH
    ensures |w| == HANDSHAKE_LENGTH && w[..56] == ClientPlain(random, dc)[..56]
  {
    var p := ClientPlain(random, dc);
    var f := ForwardParams(sha, secret, p);
    p[..56] + Aesctr.Apply(aes, f.key, f.iv, 56, p[56..])
  }

  /** The server's reading of a complete 64-byte handshake: it derives the forward
      cipher from the bytes as received, decrypts all 64 bytes from keystream
      position 0, and accepts when the word at 56 is the magic, yielding the
      sign-extended short at 60 as the datacenter number. */
  function ServerParse(aes: Aesctr.BlockCipher, sha: Aesctr.Sha256, secret: Option<Bytes>, hs: Bytes): (r: Option<int>)
    requires |hs| == HANDSHAKE_LENGTH
    ensures r.Some? ==> -0x8000 <= r.value < 0x8000
    ensures r.Some? <==> Aesctr.Apply(aes, ForwardParams(sha, secret, hs).key, ForwardParams(sha, secret, hs).iv, 0, hs)[56..60]
                         == Utils.LittleEndianBytes(PROXY_MAGIC_VALUE)
  {
    var f := ForwardParams(sha, secret, hs);
    var d := Aesctr.Apply(aes, f.key, f.iv, 0, hs);
    WordIs(d, 56, PROXY_MAGIC_VALUE);
    if Utils.LittleEndianToInt(d, PROTOCOL_SIGNATURE_OFFSET) != PROXY_MAGIC_VALUE then None
    else Some(Buffers.ShortFromLittleEndian(d[60], d[61]))
  }

  /** The server's decryption of a client packet gives back the plaintext from
      byte 56 on: the forward cipher is the same at both ends, and the server's
      pass over bytes 0..56 only advances the keystream to position 56. */
  lemma DecryptedClientTail(aes: Aesctr.BlockCipher, sha: Aesctr.Sha256, secret: Option<Bytes>, random: Bytes, dc: int)
    requires |random| == HANDSHAKE_LENGTH
    ensures var w := ClientWire(aes, sha, secret, random, dc);
            var f := ForwardParams(sha, secret, w);
            Aesctr.Apply(aes, f.key, f.iv, 0, w)[56..] == ClientPlain(random, dc)[56..]
  {
    var p := ClientPlain(random, dc);
    var w := ClientWire(aes, sha, secret, random, dc);
    var f := ForwardParams(sha, secret, p);
    assert w[8..56] == p[8..56];
    ParamsDependOnKeyMaterialOnly(sha, secret, w, p);
    assert w == w[..56] + w[56..];
    Aesctr.ApplyAppend(aes, f.key, f.iv, 0, w[..56], w[56..]);
    Aesctr.ApplyTwice(aes, f.key, f.iv, 56, p[56..]);
  }

  /** The key theorem: a server holding the client's secret reads the magic and
      the datacenter number the client wrote, sign-extended to 16 bits. */
  lemma ServerReadsClientPacket(aes: Aesctr.BlockCipher, sha: Aesctr.Sha256, secret: Option<Bytes>, random: Bytes, dc: int)
    requires |random| == HANDSHAKE_LENGTH
    ensures ServerParse(aes, sha, secret, ClientWire(aes, sha, secret, random, dc)) == Some(Buffers.SignExtend16(dc))
  {
    var p := ClientPlain(random, dc);
    var w := ClientWire(aes, sha, secret, random, dc);
    var f := ForwardParams(sha, secret, w);
    var d := Aesctr.Apply(aes, f.key, f.iv, 0, w);
    DecryptedClientTail(aes, sha, secret, random, dc);
    assert d[56..60] == p[56..60] && d[60] == p[60] && d[61] == p[61];
    WordIs(d, 56, PROXY_MAGIC_VALUE);
    WordIs(p, 56, PROXY_MAGIC_VALUE);
  }

  /** Both ends derive the same two ciphers: the client from its plaintext
      packet, the server from the bytes it received, because encryption leaves
      bytes 8..56 untouched. With the client's encrypter and the server's
      decrypter both at position 64 after the handshake, and the other pair both
      at 0, each direction of the stream is decrypted with the keystream it was
      encrypted with. */
  lemma BothEndsAgree(aes: Aesctr.BlockCipher, sha: Aesctr.Sha256, secret: Option<Bytes>, random: Bytes, dc: int)
    requires |random| == HANDSHAKE_LENGTH
    ensures ForwardParams(sha, secret, ClientWire(aes, sha, secret, random, dc))
            == ForwardParams(sha, secret, ClientPlain(random, dc))
    ensures ReverseParams(sha, secret, ClientWire(aes, sha, secret, random, dc))
            == ReverseParams(sha, secret, ClientPlain(random, dc))
  {
    var w := ClientWire(aes, sha, secret, random, dc);
    var p := ClientPlain(random, dc);
    assert w[8..56] == w[..56][8..] == p[..56][8..] == p[8..56];
    ParamsDependOnKeyMaterialOnly(sha, secret, w, p);
  }

  lemma XorCancel(x: bv8, y: bv8, g: bv8)
    requires x != y
    ensures x ^ g != y ^ g
  {
  }

  /** A byte that differs before decryption differs after it. */
  lemma ApplyKeepsDifference(aes: Aesctr.BlockCipher, key: Bytes, iv: Block, a: Bytes, b: Bytes, k: nat)
    requires |a| == |b| && k < |a| && a[k] != b[k]
    ensures Aesctr.Apply(aes, key, iv, 0, a)[k] != Aesctr.Apply(aes, key, iv, 0, b)[k]
  {
    Aesctr.ApplyAt(aes, key, iv, 0, a, k);
    Aesctr.ApplyAt(aes, key, iv, 0, b, k);
    XorCancel(a[k], b[k], Aesctr.KeystreamByte(aes, key, iv, k));
  }

  /** A client packet whose encrypted magic was altered in transit is rejected:
      any change to bytes 56..60 changes the decrypted word. */
  lemma TamperedMagicRejected(aes: Aesctr.BlockCipher, sha: Aesctr.Sha256, secret: Option<Bytes>, random: Bytes, dc: int,
                              received: Bytes)
    requires |random| == HANDSHAKE_LENGTH && |received| == HANDSHAKE_LENGTH
    requires received[..56] == ClientWire(aes, sha, secret, random, dc)[..56]
    requires received[56..60] != ClientWire(aes, sha, secret, random, dc)[56..60]
    ensures ServerParse(aes, sha, secret, received) == None
  {
    var w := ClientWire(aes, sha, secret, random, dc);
    var p := ClientPlain(random, dc);
    assert received[8..56] == w[8..56] by {
      assert received[8..56] == received[..56][8..] && w[8..56] == w[..56][8..];
    }
    ParamsDependOnKeyMaterialOnly(sha, secret, received, w);
    var f := ForwardParams(sha, secret, w);
    var dw := Aesctr.Apply(aes, f.key, f.iv, 0, w);
    DecryptedClientTail(aes, sha, secret, random, dc);
    WordIs(p, 56, PROXY_MAGIC_VALUE);
    assert dw[56..60] == Utils.LittleEndianBytes(PROXY_MAGIC_VALUE) by {
      assert dw[56..60] == dw[56..][..4] && p[56..60] == p[56..][..4];
    }
    var k := if received[56] != w[56] then 56 else if received[57] != w[57] then 57
             else if received[58] != w[58] then 58 else 59;
    assert received[k] != w[k];
    ApplyKeepsDifference(aes, f.key, f.iv, received, w, k);
    var dr := Aesctr.Apply(aes, f.key, f.iv, 0, received);
    assert dr[56..60][k - 56] != dw[56..60][k - 56];
  }
}
