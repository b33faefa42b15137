# mtoxy core, modelled in Dafny

mtoxy is an MTProto proxy for Telegram. A client connects to it and sends an
Obfuscated2 handshake. The handshake is 64 bytes: random key material and,
encrypted with AES-CTR, a magic word and a datacenter number. The proxy:

- decrypts the client's stream;
- picks an upstream peer for the requested datacenter;
- performs its own Obfuscated2 handshake as a client towards that peer;
- relays bytes between the two encrypted streams.

A connection that starts with an HTTP verb is meant to go to an optional
HTTP backend instead. As written, the detector stays in the pipeline when it
fires the first message again. That message therefore passes the detector a
second time and is classified as HTTP again, so it never reaches the relay,
and each successful backend connection opens another one (see Findings).

This project models that core:

| module | file | what it models |
|---|---|---|
| `Aesctr` | `aesctr.dfy` | the AES-CTR stream cipher |
| `Handshake` | `handshake.dfy` | the handshake as values |
| `Handshaker` | `handshaker.dfy` | the handshake handler, in place on buffers |
| `Codec` | `codec.dfy` | the codec that encrypts and decrypts every later buffer |
| `Detector` | `detector.dfy` | protocol detection |
| `DcConnect` | `dcconnect.dfy` | the datacenter connection handler |
| `Forwarding` | `forwarding.dfy` | the forwarding relay |
| `Peers` | `peerrecord.dfy` | peer records and their hexadecimal secrets |
| `Config` | `configuration.dfy` | configuration loading |
| `Statistics` | `statistics.dfy` | the statistics tracker |

Two support modules hold what the others share:

- `Buffers` (`bytebuf.dfy`) is a Netty-style byte buffer over an array.
- `Pipeline` (`pipeline.dfy`) is a channel that records the pipeline events a handler causes.

The cipher is specified by a keystream function:

- `Aesctr.KeystreamByte(aes, key, iv, k)` is byte `k mod 16` of the block cipher applied to the counter `iv + k / 16` (mod 2^128).
- `Aesctr.Apply` XORs data with the keystream from a given position.

The cipher class is proved to produce exactly that keystream while it keeps a 16-byte counter and a 16-byte gamma block in place.

The handshake is proved end to end:

- a server that holds the client's secret reads back the magic and the sign-extended datacenter number the client wrote (`Handshake.ServerReadsClientPacket`);
- both ends derive the same two ciphers (`Handshake.BothEndsAgree`);
- a tampered magic word is rejected (`Handshake.TamperedMagicRejected`);
- a client packet is never taken for HTTP by the detector (`Detector.ClientPacketIsNotHttp`).

Netty is modelled as follows:

- each `Channel` keeps a log of `Event`s: writes, fired reads, closes, and handlers added, removed or replaced;
- a connection attempt is a `ConnectOutcome` parameter;
- a handshake promise is a field with the states Unset, Pending, Succeeded and Failed.

AES, SHA-256, MD5 and `java.net.URI` parsing are function parameters. The random generator is a sequence of candidate blocks.

Behaviours of the code worth noting:

- The signature check reads the word at offset 0 little-endian (`Obfuscated2Handshaker.java:213`). Its four constants are the ASCII openings "HEAD", "POST", "GET " and "OPTI" read little-endian, so the check rejects exactly those openings (`Handshake.CheckForSignatures`).
- The client draws a fresh 64-byte random block on every attempt (`Obfuscated2Handshaker.java:121-123`).
- An empty peer list makes datacenter selection throw `ArithmeticException`. A negative datacenter number that is not a multiple of the peer count gives a negative Java remainder and so `IndexOutOfBoundsException` (`DatacenterConnectionHandler.java:44`, `DcConnect.SelectPeer`).
- The handshake listener in `DatacenterConnectionHandler` tests the connect future, not the handshake promise (`DatacenterConnectionHandler.java:64`, see Findings).

## Model

| member | source | states |
|---|---|---|
| Utils.LittleEndianToInt | src/main/java/ru/makkarpov/mtoxy/util/Utils.java:20-23 | the word read is the one whose little-endian bytes are the four bytes at `idx` |
| Utils.LittleEndianRoundTrip | src/main/java/ru/makkarpov/mtoxy/util/Utils.java:20-30 | reading back four bytes written by `intToLittleEndian` gives the original word |
| Utils.LittleEndianInjective | src/main/java/ru/makkarpov/mtoxy/util/Utils.java:25-30 | two words have the same little-endian bytes exactly when they are equal |
| Utils.IntToLittleEndian | src/main/java/ru/makkarpov/mtoxy/util/Utils.java:25-30 | only bytes `idx..idx+4` of the array change, to the word's little-endian bytes, and reading them back gives the word |
| Utils.Reverse | src/main/java/ru/makkarpov/mtoxy/util/Utils.java:32-38 | the in-place swap loop leaves the array reversed |
| Utils.ReversedAt | src/main/java/ru/makkarpov/mtoxy/util/Utils.java:32-38 | element `k` of the reversal is element `n-1-k` of the input |
| Utils.ReversedTwice | src/main/java/ru/makkarpov/mtoxy/util/Utils.java:32-38 | reversing twice gives the input back |
| Utils.ReversedAppend | src/main/java/ru/makkarpov/mtoxy/util/Utils.java:32-38 | the reversal of `a + b` is the reversal of `b` followed by the reversal of `a` |
| Utils.ParseInt | src/main/java/ru/makkarpov/mtoxy/util/Utils.java:8 | `Integer.parseInt` accepts only non-empty text and the sign of the value follows the leading `-` |
| Utils.ParseIntToString | src/main/java/ru/makkarpov/mtoxy/util/Utils.java:8 | every 32-bit integer printed in decimal parses back to itself |
| Utils.FirstColon | src/main/java/ru/makkarpov/mtoxy/util/Utils.java:7 | `split(":", 2)` cuts at the first colon: there is none exactly when no colon occurs, otherwise it is a colon with none before it |
| Utils.SocketAddress | src/main/java/ru/makkarpov/mtoxy/util/Utils.java:8 | an address is built exactly when the port is in 0..65535 |
| Utils.ParseAddress | src/main/java/ru/makkarpov/mtoxy/util/Utils.java:6-9 | text without a colon fails with an index error; a parsed address has the text before the first colon as host and the number after it as a valid port |
| Utils.ParseAddressWithDefault | src/main/java/ru/makkarpov/mtoxy/util/Utils.java:11-18 | without a colon the whole text is the host and the default port is used; otherwise it behaves as `parseAddress` |
| Utils.ParseAddressText | src/main/java/ru/makkarpov/mtoxy/util/Utils.java:6-9 | `host:port` with a colon-free host and a valid port parses back to that address |
| Aesctr.IncrementValue | src/main/java/ru/makkarpov/mtoxy/util/AESCTR.java:34-40 | the carry loop adds one to the counter as a big-endian number, wrapping to zero |
| Aesctr.CounterAtValue | src/main/java/ru/makkarpov/mtoxy/util/AESCTR.java:30-41 | after `j` blocks the counter is the IV plus `j` modulo 2^128 |
| Aesctr.IncrementInPlace | src/main/java/ru/makkarpov/mtoxy/util/AESCTR.java:34-40 | the in-place loop leaves the array holding the incremented counter |
| Aesctr.KeystreamAt | src/main/java/ru/makkarpov/mtoxy/util/AESCTR.java:43-51 | byte `j` of a keystream slice is the keystream byte at position `start + j` |
| Aesctr.KeystreamSplit | src/main/java/ru/makkarpov/mtoxy/util/AESCTR.java:53-57 | a keystream of `a + b` bytes is the first `a` bytes followed by the next `b` |
| Aesctr.ApplyAt | src/main/java/ru/makkarpov/mtoxy/util/AESCTR.java:63-67 | each processed byte is the input byte XOR the keystream byte at its position |
| Aesctr.ApplyTwice | src/main/java/ru/makkarpov/mtoxy/util/AESCTR.java:63-67 | processing twice from the same position restores the data: decryption is encryption |
| Aesctr.ApplyAppend | src/main/java/ru/makkarpov/mtoxy/util/AESCTR.java:63-67 | processing `a + b` is processing `a` and then `b` from where `a` ended |
| Aesctr.SkipThenApply | src/main/java/ru/makkarpov/mtoxy/util/AESCTR.java:53-57 | skipping `n` bytes then processing equals processing `n` filler bytes and dropping them |
| Aesctr.AESCTR.constructor | src/main/java/ru/makkarpov/mtoxy/util/AESCTR.java:15-28 | a new cipher is at keystream position 0, its gamma is the first block and its counter the IV plus one |
| Aesctr.AESCTR.GenerateGamma | src/main/java/ru/makkarpov/mtoxy/util/AESCTR.java:30-41 | the gamma becomes the block cipher of the old counter, the counter is incremented and the gamma position resets |
| Aesctr.AESCTR.NextGamma | src/main/java/ru/makkarpov/mtoxy/util/AESCTR.java:43-51 | returns the keystream byte at the current position and advances it by one, keeping the counter/gamma invariant |
| Aesctr.AESCTR.SkipGamma | src/main/java/ru/makkarpov/mtoxy/util/AESCTR.java:53-57 | advances the position by `n`, or not at all when `n` is not positive |
| Aesctr.AESCTR.ProcessArray | src/main/java/ru/makkarpov/mtoxy/util/AESCTR.java:59-61 | the whole array becomes its keystream XOR from the old position; the position advances by its length |
| Aesctr.AESCTR.ProcessArrayRange | src/main/java/ru/makkarpov/mtoxy/util/AESCTR.java:63-67 | only `offset..offset+length` changes, to its keystream XOR; the position advances by `length` |
| Aesctr.AESCTR.ProcessByteBuf | src/main/java/ru/makkarpov/mtoxy/util/AESCTR.java:69-71 | the readable bytes are encrypted in place, the rest of the buffer is unchanged |
| Aesctr.AESCTR.ProcessByteBufRange | src/main/java/ru/makkarpov/mtoxy/util/AESCTR.java:73-77 | the given range of the buffer's storage is encrypted in place, the rest is unchanged |
| Aesctr.SameState | src/main/java/ru/makkarpov/mtoxy/util/AESCTR.java:12-13 | two valid ciphers with the same key, IV and position hold the same counter, gamma and gamma position |
| Aesctr.Create | src/main/java/ru/makkarpov/mtoxy/util/AESCTR.java:15-18 | construction fails with `IllegalArgumentException` exactly when the IV is not 16 bytes |
| Aesctr.FromKeyAndSecret | src/main/java/ru/makkarpov/mtoxy/util/AESCTR.java:79-92 | with a secret, the key array's first 32 bytes are overwritten by SHA-256(key + secret), and a key shorter than 32 bytes is a `RuntimeException`; the cipher uses the resulting key |
| Buffers.ShortRoundTrip | src/main/java/ru/makkarpov/mtoxy/network/Obfuscated2Handshaker.java:129 | `writeShortLE` then `readShortLE` gives the value sign-extended from its low 16 bits |
| Buffers.SignExtend16 | src/main/java/ru/makkarpov/mtoxy/network/Obfuscated2Handshaker.java:163 | the result is a 16-bit signed value congruent to the input modulo 2^16 |
| Buffers.BigEndianWord | src/main/java/ru/makkarpov/mtoxy/network/ProtocolDetector.java:77 | `readInt` reads the four bytes most significant first |
| Buffers.ByteBuf.ReadBytesInto | src/main/java/ru/makkarpov/mtoxy/network/Obfuscated2Handshaker.java:149 | `n` bytes move from this buffer's reader index to the destination's writer index; both indices advance by `n` |
| Handshake.CheckForSignatures | src/main/java/ru/makkarpov/mtoxy/network/Obfuscated2Handshaker.java:203-218 | a candidate is rejected exactly when it starts with 0xFE, has zero bytes 4..8, or starts with "HEAD", "POST", "GET ", "OPTI" or 0xEEEEEEEE |
| Handshake.FirstAccepted | src/main/java/ru/makkarpov/mtoxy/network/Obfuscated2Handshaker.java:121-123 | the do-while stops at the first candidate the signature check passes; every earlier one was rejected |
| Handshake.ForwardParams | src/main/java/ru/makkarpov/mtoxy/network/Obfuscated2Handshaker.java:181-185 | the forward key comes from bytes 8..40 (hashed with the secret), the IV from bytes 40..56 |
| Handshake.ReverseParams | src/main/java/ru/makkarpov/mtoxy/network/Obfuscated2Handshaker.java:187-194 | the reverse key is bytes 24..56 reversed (hashed with the secret), the IV bytes 8..24 reversed |
| Handshake.ReverseMaterialIsForwardReversed | src/main/java/ru/makkarpov/mtoxy/network/Obfuscated2Handshaker.java:180-197 | the reverse key and IV together are the forward key and IV read backwards |
| Handshake.ParamsDependOnKeyMaterialOnly | src/main/java/ru/makkarpov/mtoxy/network/Obfuscated2Handshaker.java:180-197 | both ciphers depend only on bytes 8..56 |
| Handshake.ClientPlain | src/main/java/ru/makkarpov/mtoxy/network/Obfuscated2Handshaker.java:125-130 | the packet keeps the random bytes except the magic, little-endian at 56, and the datacenter number's low 16 bits, little-endian at 60 |
| Handshake.ClientWire | src/main/java/ru/makkarpov/mtoxy/network/Obfuscated2Handshaker.java:132-136 | bytes 0..56 go out in the clear and only 56..64 are encrypted |
| Handshake.ServerParse | src/main/java/ru/makkarpov/mtoxy/network/Obfuscated2Handshaker.java:151-163 | a handshake is accepted exactly when the decrypted bytes 56..60 are the magic; the datacenter number is a signed 16-bit value |
| Handshake.DecryptedClientTail | src/main/java/ru/makkarpov/mtoxy/network/Obfuscated2Handshaker.java:132-136 | the server's decryption of a client packet restores the plaintext from byte 56 on |
| Handshake.ServerReadsClientPacket | src/main/java/ru/makkarpov/mtoxy/network/Obfuscated2Handshaker.java:121-168 | a server with the client's secret accepts the client's packet and reads the datacenter number it wrote, sign-extended |
| Handshake.BothEndsAgree | src/main/java/ru/makkarpov/mtoxy/network/Obfuscated2Handshaker.java:180-201 | client and server derive the same forward and reverse ciphers |
| Handshake.TamperedMagicRejected | src/main/java/ru/makkarpov/mtoxy/network/Obfuscated2Handshaker.java:157-161 | a packet whose encrypted magic was altered in transit is rejected |
| Handshaker.Verdict | src/main/java/ru/makkarpov/mtoxy/network/Obfuscated2Handshaker.java:157-163 | a complete handshake is rejected exactly when no magic was found, otherwise accepted with the parsed number |
| Handshaker.DrawRandom | src/main/java/ru/makkarpov/mtoxy/network/Obfuscated2Handshaker.java:121-123 | the loop chooses the first accepted candidate and leaves it in the random array |
| Handshaker.WriteHeader | src/main/java/ru/makkarpov/mtoxy/network/Obfuscated2Handshaker.java:125-130 | the random buffer becomes the client plaintext packet with its indices restored |
| Handshaker.ReadHeader | src/main/java/ru/makkarpov/mtoxy/network/Obfuscated2Handshaker.java:155-163 | the magic is found exactly when the word at 56 is the magic; the number is the short at 60 |
| Handshaker.SetupCiphers | src/main/java/ru/makkarpov/mtoxy/network/Obfuscated2Handshaker.java:180-201 | a client encrypts forward and decrypts reverse, a server the other way round; both ciphers start at position 0 |
| Handshaker.EncryptClientPacket | src/main/java/ru/makkarpov/mtoxy/network/Obfuscated2Handshaker.java:132-136 | the packet becomes the client wire bytes and the encrypter stands at position 64 |
| Handshaker.DecryptHandshake | src/main/java/ru/makkarpov/mtoxy/network/Obfuscated2Handshaker.java:153-154 | the handshake is decrypted in place from position 0 and the decrypter stands at 64 |
| Handshaker.DecryptAndReadHeader | src/main/java/ru/makkarpov/mtoxy/network/Obfuscated2Handshaker.java:153-163 | the magic is found exactly when `ServerParse` accepts, and the number read is the one it yields |
| Handshaker.DirectionCipher | src/main/java/ru/makkarpov/mtoxy/network/Obfuscated2Handshaker.java:180-197 | a fresh cipher at position 0 whose key is the 32 bytes at the key offset and whose IV is the 16 bytes at the IV offset, both read backwards for the reverse direction, the key hashed with the secret when there is one |
| Handshaker.Obfuscated2Handshaker.constructor | src/main/java/ru/makkarpov/mtoxy/network/Obfuscated2Handshaker.java:79-83 | a handshaker for the given side and secret with datacenter number 0 |
| Handshaker.Obfuscated2Handshaker.Client | src/main/java/ru/makkarpov/mtoxy/network/Obfuscated2Handshaker.java:85-89 | a client handshaker for the given secret and datacenter number |
| Handshaker.Obfuscated2Handshaker.FromPeer | src/main/java/ru/makkarpov/mtoxy/network/Obfuscated2Handshaker.java:224-226 | a fresh client handshaker carrying the peer's secret and the datacenter number |
| Handshaker.Obfuscated2Handshaker.HandlerAdded | src/main/java/ru/makkarpov/mtoxy/network/Obfuscated2Handshaker.java:96-103 | a server gets a fresh empty 64-byte buffer; either side gets a pending promise |
| Handshaker.Obfuscated2Handshaker.HandlerRemoved | src/main/java/ru/makkarpov/mtoxy/network/Obfuscated2Handshaker.java:106-111 | the handshake buffer is dropped |
| Handshaker.Obfuscated2Handshaker.ChannelActive | src/main/java/ru/makkarpov/mtoxy/network/Obfuscated2Handshaker.java:114-143 | a server does nothing; a client writes the wire packet of the first accepted candidate, replaces itself with the codec holding ciphers positioned for the stream, and succeeds the promise |
| Handshaker.Obfuscated2Handshaker.SendHandshake | src/main/java/ru/makkarpov/mtoxy/network/Obfuscated2Handshaker.java:125-141 | the packet sent is `ClientWire` of the random block; the encrypter stands at 64 and the decrypter at 0 |
| Handshaker.Obfuscated2Handshaker.ChannelRead | src/main/java/ru/makkarpov/mtoxy/network/Obfuscated2Handshaker.java:146-171 | takes as many bytes as fit; once 64 have arrived, rejects (closes) or accepts as `ServerParse` says; on acceptance it installs the codec, fires the datacenter number and then the rest of the message, and succeeds the promise |
| Handshaker.Obfuscated2Handshaker.ClientCompleted | src/main/java/ru/makkarpov/mtoxy/network/Obfuscated2Handshaker.java:139-141 | the packet is written, the codec with this handler's ciphers replaces the handler, and the promise succeeds |
| Handshaker.Obfuscated2Handshaker.ServerHandshake | src/main/java/ru/makkarpov/mtoxy/network/Obfuscated2Handshaker.java:153-169 | the verdict is `ServerParse` of the 64 bytes received; on rejection only a close is recorded and the promise stays pending; on acceptance the ciphers are the ones both ends derive, the codec is installed, the datacenter number and then the rest of the message are fired, and the promise succeeds |
| Handshaker.Obfuscated2Handshaker.ServerRejected | src/main/java/ru/makkarpov/mtoxy/network/Obfuscated2Handshaker.java:158-160 | the ciphers stay in the fields and the channel is closed, nothing else |
| Handshaker.Obfuscated2Handshaker.ServerCompleted | src/main/java/ru/makkarpov/mtoxy/network/Obfuscated2Handshaker.java:166-169 | the codec replaces the handler, the datacenter number is fired before the rest of the message, and the promise succeeds |
| Handshaker.Obfuscated2Handshaker.Accumulate | src/main/java/ru/makkarpov/mtoxy/network/Obfuscated2Handshaker.java:147-151 | `min(writable, readable)` bytes move from the message into the handshake buffer |
| Handshaker.Obfuscated2Handshaker.ExceptionCaught | src/main/java/ru/makkarpov/mtoxy/network/Obfuscated2Handshaker.java:174-178 | the channel is closed; a pending promise fails, a completed one throws `IllegalStateException` |
| Codec.Obfuscated2Codec.constructor | src/main/java/ru/makkarpov/mtoxy/network/Obfuscated2Codec.java:22-25 | a codec over two usable ciphers with disjoint state holds exactly those ciphers and is ready for `encode` and `decode` |
| Codec.Obfuscated2Codec.Process | src/main/java/ru/makkarpov/mtoxy/network/Obfuscated2Codec.java:27-34 | a buffer's readable bytes are processed in place with the cipher and the cipher advances by their count; any message is passed on |
| Codec.Obfuscated2Codec.Encode | src/main/java/ru/makkarpov/mtoxy/network/Obfuscated2Codec.java:37-39 | outgoing buffers are encrypted with the encrypter; the decrypter does not move |
| Codec.Obfuscated2Codec.Decode | src/main/java/ru/makkarpov/mtoxy/network/Obfuscated2Codec.java:42-44 | incoming buffers are decrypted with the decrypter; the encrypter does not move |
| Detector.IsHttpMarker | src/main/java/ru/makkarpov/mtoxy/network/ProtocolDetector.java:97-100 | a word is a marker exactly when its bytes, most significant first, are one of the HTTP openings |
| Detector.HttpMarkerMeaning | src/main/java/ru/makkarpov/mtoxy/network/ProtocolDetector.java:97-100 | the big-endian word is an HTTP marker exactly when the bytes are "POST", "GET ", "HEAD" or "OPTI" |
| Detector.Classify | src/main/java/ru/makkarpov/mtoxy/network/ProtocolDetector.java:71-89 | fewer than four bytes means MTProto; otherwise HTTP exactly when the first four bytes are an HTTP opening |
| Detector.ClientPacketIsNotHttp | src/main/java/ru/makkarpov/mtoxy/network/Obfuscated2Handshaker.java:121-136 | a client packet this proxy sends is classified as MTProto |
| Detector.ProtocolDetector.constructor | src/main/java/ru/makkarpov/mtoxy/network/ProtocolDetector.java:21-26 | a detector holding the configured HTTP backend and secret |
| Detector.ProtocolDetector.ChannelRead | src/main/java/ru/makkarpov/mtoxy/network/ProtocolDetector.java:71-89 | the buffer's indices and readable bytes are restored; the connection takes the HTTP or MTProto path as `Classify` says, the HTTP path as written, with the message fired again while the detector is installed |
| Detector.ProtocolDetector.SetupHttpConnection | src/main/java/ru/makkarpov/mtoxy/network/ProtocolDetector.java:28-58 | as written: no backend or a failed connect closes the channel; a successful connect installs HTTP statistics and the relay and fires the message again with the detector still installed |
| Detector.ProtocolDetector.SetupHttpConnectionCorrected | src/main/java/ru/makkarpov/mtoxy/network/ProtocolDetector.java:28-58 | as intended: the same, but the detector is removed before the message is fired again, so no re-fired message meets it |
| Detector.HttpRefireFinding | src/main/java/ru/makkarpov/mtoxy/network/ProtocolDetector.java:49-51 | a message buffer whose readable bytes start with an HTTP opening is classified HTTP; as written its re-fire meets the detector again, which sees the same readable bytes, in the corrected order it does not |
| Detector.CorrectedRefireSkipsDetector | src/main/java/ru/makkarpov/mtoxy/network/ProtocolDetector.java:49-51 | in the corrected order the detector is removed before every re-fire |
| Detector.ProtocolDetector.SetupMtConnection | src/main/java/ru/makkarpov/mtoxy/network/ProtocolDetector.java:60-68 | the detector is removed and statistics, a server handshaker with the secret and the datacenter handler are appended, then the message is fired again |
| Detector.ProtocolDetector.ExceptionCaught | src/main/java/ru/makkarpov/mtoxy/network/ProtocolDetector.java:92-95 | the connection is closed |
| Forwarding.ForwardingHandler.constructor | src/main/java/ru/makkarpov/mtoxy/network/ForwardingHandler.java:16-18 | a handler writing to `to`, unlinked and open |
| Forwarding.ForwardingHandler.SetupForwarding | src/main/java/ru/makkarpov/mtoxy/network/ForwardingHandler.java:48-57 | two fresh handlers, each writing to the other channel, linked to each other and appended to their channels |
| Forwarding.ForwardingHandler.ChannelRead | src/main/java/ru/makkarpov/mtoxy/network/ForwardingHandler.java:26-28 | the message is written unchanged to the other channel |
| Forwarding.ForwardingHandler.Close | src/main/java/ru/makkarpov/mtoxy/network/ForwardingHandler.java:38-46 | from both sides open, each channel is closed exactly once and the nested calls stop after two activations; a closed handler does nothing |
| Forwarding.ForwardingHandler.ChannelInactive | src/main/java/ru/makkarpov/mtoxy/network/ForwardingHandler.java:21-23 | exactly the effect of `close()`: both handlers end closed, each of two distinct channels gets one close, a shared channel gets two, an already closed handler closes nothing, and the body runs at most twice |
| Forwarding.ForwardingHandler.ExceptionCaught | src/main/java/ru/makkarpov/mtoxy/network/ForwardingHandler.java:31-36 | the handler's own channel is closed, then the relay is torn down |
| DcConnect.JavaRem | src/main/java/ru/makkarpov/mtoxy/network/DatacenterConnectionHandler.java:44 | Java's `%` by a positive divisor lies in `[0, n)` for a non-negative dividend and in `(-n, 0]` for a negative one |
| DcConnect.JavaRemResidue | src/main/java/ru/makkarpov/mtoxy/network/DatacenterConnectionHandler.java:44 | Java's `%` equals the mathematical residue when non-negative, and the residue minus the divisor when negative |
| DcConnect.SelectPeer | src/main/java/ru/makkarpov/mtoxy/network/DatacenterConnectionHandler.java:43-44 | no peers is an `ArithmeticException`; otherwise the peer index is `dc mod count`, and `get` fails with an index error exactly when `dc` is negative and not a multiple of the count |
| DcConnect.SelectPeerRoundRobin | src/main/java/ru/makkarpov/mtoxy/network/DatacenterConnectionHandler.java:44 | non-negative datacenter numbers are spread round-robin over the peers |
| DcConnect.SelectPeerExamples | src/main/java/ru/makkarpov/mtoxy/network/DatacenterConnectionHandler.java:44 | concrete selections, including a negative number that fails and one that does not |
| DcConnect.HandshakeGuardFinding | src/main/java/ru/makkarpov/mtoxy/network/DatacenterConnectionHandler.java:62-73 | the guard as written relays after a failed upstream handshake; the corrected guard relays exactly on success |
| DcConnect.DatacenterConnectionHandler.constructor | src/main/java/ru/makkarpov/mtoxy/network/DatacenterConnectionHandler.java:26-28 | a handler with no buffered messages, peer, handshaker or upstream |
| DcConnect.DatacenterConnectionHandler.HandlerAdded | src/main/java/ru/makkarpov/mtoxy/network/DatacenterConnectionHandler.java:31-33 | an empty list of awaiting messages |
| DcConnect.DatacenterConnectionHandler.ChannelRead | src/main/java/ru/makkarpov/mtoxy/network/DatacenterConnectionHandler.java:36-84 | the handshake message turns off auto-read and selects a peer, throwing the selection's exception or creating a client handshaker for it; buffers are appended to the awaiting messages; anything else is ignored |
| DcConnect.DatacenterConnectionHandler.ConnectListener | src/main/java/ru/makkarpov/mtoxy/network/DatacenterConnectionHandler.java:47-80 | a successful connect installs the handshaker on the upstream channel; a failure closes the client channel and counts one MTProto connection failure |
| DcConnect.DatacenterConnectionHandler.HandshakeListenerAsWritten | src/main/java/ru/makkarpov/mtoxy/network/DatacenterConnectionHandler.java:62-73 | as written, the relay is always set up, whatever the upstream handshake's outcome |
| DcConnect.DatacenterConnectionHandler.HandshakeListener | src/main/java/ru/makkarpov/mtoxy/network/DatacenterConnectionHandler.java:62-73 | the relay is set up exactly when the upstream handshake succeeded; otherwise nothing changes |
| DcConnect.DatacenterConnectionHandler.Relay | src/main/java/ru/makkarpov/mtoxy/network/DatacenterConnectionHandler.java:66-71 | forwarding is set up both ways, the handler leaves, the awaiting messages are fired after the codec and reading resumes |
| DcConnect.DatacenterConnectionHandler.ExceptionCaught | src/main/java/ru/makkarpov/mtoxy/network/DatacenterConnectionHandler.java:87-90 | the connection is closed |
| Peers.ParseHexBinary | src/main/java/ru/makkarpov/mtoxy/util/PeerRecord.java:40 | a successful parse yields one byte per two characters |
| Peers.PrintHexBinary | src/main/java/ru/makkarpov/mtoxy/util/PeerRecord.java:60 | two characters per byte |
| Peers.HexValue | src/main/java/ru/makkarpov/mtoxy/util/PeerRecord.java:40 | exactly the characters 0-9, a-f and A-F are hexadecimal digits, with values below 16 |
| Peers.ParseHexBinaryAccepts | src/main/java/ru/makkarpov/mtoxy/util/PeerRecord.java:40 | `parseHexBinary` succeeds exactly on even-length text of hexadecimal digits |
| Peers.ParseHexBinaryAt | src/main/java/ru/makkarpov/mtoxy/util/PeerRecord.java:40 | byte `i` is the value of the digit pair at `2i` |
| Peers.HexRoundTrip | src/main/java/ru/makkarpov/mtoxy/util/PeerRecord.java:40 | parsing the printed hexadecimal form of any bytes gives the bytes back |
| Peers.FromUri | src/main/java/ru/makkarpov/mtoxy/util/PeerRecord.java:19-46 | port 443 when the URI has none; `direct` requires an empty path and has no secret; `proxy` parses the path after `/` as a hexadecimal secret; any other scheme is `IllegalArgumentException` |
| Peers.UriRoundTrip | src/main/java/ru/makkarpov/mtoxy/util/PeerRecord.java:14-46 | the URI form of any peer with a valid port parses back to that peer |
| Peers.ToString | src/main/java/ru/makkarpov/mtoxy/util/PeerRecord.java:57-64 | the text starts with "proxy " exactly for peers with a secret, and ends with the secret in hexadecimal, which parses back; otherwise it starts with "direct " |
| Config.Utf8Char | src/main/java/ru/makkarpov/mtoxy/util/Configuration.java:69-77 | one to four bytes per character, ASCII as itself |
| Config.SecretKeyOf | src/main/java/ru/makkarpov/mtoxy/util/Configuration.java:46-77 | exactly one of secret and passphrase must be set; a secret must be hexadecimal of 16 bytes; a passphrase gives MD5 of its UTF-8 bytes; errors are `IllegalArgumentException` |
| Config.ParsePeer | src/main/java/ru/makkarpov/mtoxy/util/Configuration.java:79-89 | a peer entry is accepted exactly when it parses as a URI and as a peer record; any failure is `IllegalArgumentException` |
| Config.ParseListenAddress | src/main/java/ru/makkarpov/mtoxy/util/Configuration.java:91-99 | a listen address is accepted exactly when `parseAddress` accepts it; any failure is `IllegalArgumentException` |
| Config.MapAllMeaning | src/main/java/ru/makkarpov/mtoxy/util/Configuration.java:79-99 | a list is accepted exactly when every entry is, and its values are the entries' values in order |
| Config.MapAllPrefixErr | src/main/java/ru/makkarpov/mtoxy/util/Configuration.java:79-99 | the first failing entry decides the error of the whole list |
| Config.MapAllErrors | src/main/java/ru/makkarpov/mtoxy/util/Configuration.java:79-99 | when each entry fails only with `IllegalArgumentException`, so does the list |
| Config.BackendOf | src/main/java/ru/makkarpov/mtoxy/util/Configuration.java:101-111 | a malformed backend address is `IllegalArgumentException` |
| Config.LoadedAccepts | src/main/java/ru/makkarpov/mtoxy/util/Configuration.java:45-138 | loading succeeds exactly when the key, every peer, every listen address and the backend (if present) are accepted; every failure is `IllegalArgumentException` |
| Config.LoadedContents | src/main/java/ru/makkarpov/mtoxy/util/Configuration.java:45-116 | the loaded settings hold the derived key, the peers and listen addresses in source order, and a backend exactly when one is configured |
| Config.ParseAll | src/main/java/ru/makkarpov/mtoxy/util/Configuration.java:79-99 | the loop over the entries computes the same result as `MapAll` |
| Config.Configuration.constructor | src/main/java/ru/makkarpov/mtoxy/util/Configuration.java:39-43 | an object with no settings yet; the source's constructor then calls `initValues`, which is `InitValues` |
| Config.Configuration.HasHttpBackend | src/main/java/ru/makkarpov/mtoxy/util/Configuration.java:152-154 | true exactly when the loaded settings have an HTTP backend |
| Config.Configuration.InitValues | src/main/java/ru/makkarpov/mtoxy/util/Configuration.java:45-138 | completes exactly when loading succeeds, leaving the loaded settings in the fields; otherwise throws `IllegalArgumentException` |
| Config.NewConfiguration | src/main/java/ru/makkarpov/mtoxy/util/Configuration.java:39-43 | a configuration is built exactly when loading succeeds; it holds the loaded settings and has an HTTP backend exactly when the path is set |
| Statistics.Wrap32 | src/main/java/ru/makkarpov/mtoxy/stats/StatisticsTracker.java:32-47 | 32-bit wrap-around: congruent modulo 2^32, and the identity in range |
| Statistics.Wrap64 | src/main/java/ru/makkarpov/mtoxy/stats/StatisticsTracker.java:49-51 | 64-bit wrap-around: congruent modulo 2^64, and the identity in range |
| Statistics.Wrap32Add | src/main/java/ru/makkarpov/mtoxy/stats/StatisticsTracker.java:32-47 | adding to a wrapped counter then wrapping equals wrapping the exact sum |
| Statistics.StepAgrees | src/main/java/ru/makkarpov/mtoxy/stats/StatisticsTracker.java:32-51 | one event keeps each type's counters equal to its exact tallies wrapped |
| Statistics.StepIsolated | src/main/java/ru/makkarpov/mtoxy/stats/StatisticsTracker.java:32-51 | an event of one connection type leaves every other type's counters unchanged |
| Statistics.ReplayTallies | src/main/java/ru/makkarpov/mtoxy/stats/StatisticsTracker.java:16-51 | after any event log, each counter is the wrapped count of its events: connections started, started minus finished, failures, exceptions, bytes summed |
| Statistics.StatisticsTracker.constructor | src/main/java/ru/makkarpov/mtoxy/stats/StatisticsTracker.java:17-30 | every counter of every type is zero |
| Statistics.StatisticsTracker.ConnectionStarted | src/main/java/ru/makkarpov/mtoxy/stats/StatisticsTracker.java:32-35 | the count and the active connections of the type go up by one |
| Statistics.StatisticsTracker.ConnectionFinished | src/main/java/ru/makkarpov/mtoxy/stats/StatisticsTracker.java:37-39 | the active connections of the type go down by one |
| Statistics.StatisticsTracker.ConnectionFailed | src/main/java/ru/makkarpov/mtoxy/stats/StatisticsTracker.java:41-43 | the failures of the type go up by one |
| Statistics.StatisticsTracker.ConnectionException | src/main/java/ru/makkarpov/mtoxy/stats/StatisticsTracker.java:45-47 | the exceptions of the type go up by one |
| Statistics.StatisticsTracker.BytesForwarded | src/main/java/ru/makkarpov/mtoxy/stats/StatisticsTracker.java:49-51 | the forwarded bytes of the type go up by `n`, wrapping at 64 bits |
| Statistics.StatisticsTracker.GetConnectionCount | src/main/java/ru/makkarpov/mtoxy/stats/StatisticsTracker.java:53-55 | returns the type's connection count |
| Statistics.StatisticsTracker.GetActiveConnections | src/main/java/ru/makkarpov/mtoxy/stats/StatisticsTracker.java:57-59 | returns the type's active connections |
| Statistics.StatisticsTracker.GetConnectionFailures | src/main/java/ru/makkarpov/mtoxy/stats/StatisticsTracker.java:61-63 | returns the type's failures |
| Statistics.StatisticsTracker.GetConnectionExceptions | src/main/java/ru/makkarpov/mtoxy/stats/StatisticsTracker.java:65-67 | returns the type's exceptions |
| Statistics.StatisticsTracker.GetBytesForwarded | src/main/java/ru/makkarpov/mtoxy/stats/StatisticsTracker.java:69-71 | returns the type's forwarded bytes |

## Left out

- Netty pipelines, contexts and futures are a log of events per channel. A connection attempt's result is a parameter. A handshake promise is a field.
  - Listener registration, event-loop scheduling and the order of callbacks across channels are not modelled.
  - Reference counting (`release`, `retain`) is not modelled.
- A message buffer is one contiguous `ByteBuf` over an array. Composite buffers are not modelled. The datacenter handler's awaiting messages are a list of buffers, not one `CompositeByteBuf`.
- Concurrency is not modelled, and neither are the atomicity of the statistics counters or the thread that runs each listener.
- AES (`AESFastEngine`), SHA-256 and MD5 are function parameters, not implementations.
- `ThreadLocalRandom` is a finite sequence of candidate blocks.
  - Handshaker.Obfuscated2Handshaker.ChannelActive: when every candidate is rejected, it sends nothing. The source's loop would keep drawing.
- `java.net.URI` parsing is a parameter of the configuration loader.
- Name resolution in `InetSocketAddress` is not modelled. An address is a host string and a port.
- The text of an address in `PeerRecord.toString` is approximated by `host:port`.
- Typesafe Config lookups are a `Source` value holding each setting.
  - Failures of `getInt`, `getDuration` and `getStringList` are not modelled.
  - The log lines `initValues` prints are not modelled.
- The `Configuration` getters are plain field reads of the class and have no members of their own.
- Logging is not modelled.
- The `ConnectionType` enum is not part of this model. Its order is taken to be HTTP then MTProto.
- `Utils.formatTime` and `Utils.formatSize` are not modelled. They are used only for reports and logs.
- `MTServer`, `MToxy`, `NetworkTransport`, `StatisticsHandler`, `StatisticsReporter` and `ColoredLevel` are not part of this model.
- `fromPeer(pr)` is `FromPeer` with datacenter number 0 and has no member of its own.
- Handshaker.Obfuscated2Handshaker.ChannelRead requires a server handshaker whose 64-byte buffer exists. On a client handshaker the source would throw `NullPointerException`; that path is not modelled. The message must be a `ByteBuf`; the source's cast of anything else is not modelled.
- Utils.ParseInt accepts only ASCII decimal digits. `Integer.parseInt` also accepts other Unicode digits, which configuration text does not use.
- Detector.ProtocolDetector.ChannelRead takes the first message as a `ByteBuf`. The source's cast of anything else is not modelled.
- HTTP re-fire: a fired message is one `Fire` event; the model does not run the pipeline's handlers on it. That the as-written order sends it back through the detector is stated by `Detector.HttpRefireFinding` (see Findings).
- Forwarding.ForwardingHandler.ExceptionCaught requires the handler's own channel to be the one its peer writes to, as `setupForwarding` arranges.

## Findings

| source | as written | input that shows it | evidently intended | confidence | as-written member | corrected member |
|---|---|---|---|---|---|---|
| src/main/java/ru/makkarpov/mtoxy/network/DatacenterConnectionHandler.java:64 | the handshake listener tests `f.isSuccess()`, the connect future, which has already succeeded on this path | the connection to the peer succeeds and the upstream handshake promise then fails (for example `exceptionCaught` during the handshake): the relay is still set up and reading resumes | test the handshake promise, `f1.isSuccess()` | medium, not executed | DcConnect.DatacenterConnectionHandler.HandshakeListenerAsWritten (with DcConnect.HandshakeGuardFinding) | DcConnect.DatacenterConnectionHandler.HandshakeListener |
| src/main/java/ru/makkarpov/mtoxy/network/ProtocolDetector.java:51 | the first message is fired again from the head of the pipeline while the detector is still in it | a client whose first bytes are "GET " with an HTTP backend that accepts connections: the detector sees the same unread bytes again, takes the HTTP path again and opens another backend connection, and the message never reaches the relay | remove the detector before firing the message again, as `setupMtConnection` does at line 61 | medium, not executed | Detector.ProtocolDetector.SetupHttpConnection (with Detector.HttpRefireFinding) | Detector.ProtocolDetector.SetupHttpConnectionCorrected |
