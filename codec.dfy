/** The per-connection codec installed after the handshake (Obfuscated2Codec.java):
    outbound byte messages go through the encrypter, inbound ones through the
    decrypter, and every other message passes unchanged. */
module Codec {
  import opened Common
  import Buffers
  import Aesctr
  import opened Pipeline

  /** The number of bytes a message carries through a codec: the readable bytes of
      a buffer, none for anything else. */
  function Payload(msg: Message): (n: nat)
    requires msg.Buf? ==> msg.buf.Valid()
    reads if msg.Buf? then {msg.buf} else {}
    ensures msg.Buf? ==> n == msg.buf.ReadableCount()
    ensures !msg.Buf? ==> n == 0
  {
    if msg.Buf? then msg.buf.ReadableCount() else 0
  }

  /** The storage a message exposes to a codec. */
  function Storage(msg: Message): (r: set<object>)
    ensures msg.Buf? ==> r == {msg.buf.data}
    ensures !msg.Buf? ==> r == {}
  {
    if msg.Buf? then {msg.buf.data} else {}
  }

  /** Whether a cipher may be applied to a message: a buffer is usable and does
      not share storage with the cipher. */
  ghost predicate Processable(msg: Message, cipherRepr: set<object>)
    reads if msg.Buf? then {msg.buf} else {}
  {
    msg.Buf? ==> msg.buf.Valid() && msg.buf.data !in cipherRepr
  }

  class Obfuscated2Codec {
    const encrypter: Aesctr.AESCTR
    const decrypter: Aesctr.AESCTR

    /** The two ciphers are usable and independent. */
    ghost predicate Valid()
      reads this, encrypter, encrypter.counter, encrypter.gamma, decrypter, decrypter.counter, decrypter.gamma
    {
      encrypter.Valid() && decrypter.Valid() && encrypter.Repr !! decrypter.Repr
    }

    /** `new Obfuscated2Codec(encrypter, decrypter)`: a codec over two usable,
        independent ciphers is ready for `encode` and `decode`. */
    constructor (encrypter: Aesctr.AESCTR, decrypter: Aesctr.AESCTR)
      requires encrypter.Valid() && decrypter.Valid() && encrypter.Repr !! decrypter.Repr
      ensures this.encrypter == encrypter && this.decrypter == decrypter
      ensures Valid()
    {
      this.encrypter := encrypter;
      this.decrypter := decrypter;
    }

    /** `process(cipher, msg, out)`: applies `cipher` to the readable bytes of a
        buffer message and then appends the same message to `out`; any other
        message is appended untouched and the cipher does not move. */
    static method Process(cipher: Aesctr.AESCTR, msg: Message, out: seq<Message>) returns (out': seq<Message>)
      requires cipher.Valid() && Processable(msg, cipher.Repr)
      modifies cipher`gammaPos, cipher`position, cipher.counter, cipher.gamma, Storage(msg)
      ensures out' == out + [msg]
      ensures cipher.Valid() && cipher.position == old(cipher.position) + old(Payload(msg))
      ensures msg.Buf? ==>
        msg.buf.data[..] == old(msg.buf.data[..msg.buf.readerIndex])
                            + Aesctr.Apply(cipher.aes, cipher.key, cipher.iv, old(cipher.position), old(msg.buf.Readable()))
                            + old(msg.buf.data[msg.buf.writerIndex..])
      ensures !msg.Buf? ==> cipher.counter[..] == old(cipher.counter[..]) && cipher.gamma[..] == old(cipher.gamma[..])
    {
      if msg.Buf? {
        cipher.ProcessByteBuf(msg.buf);
      }
      out' := out + [msg];
    }

    /** `encode`: outbound messages always use the encrypter; the decrypter does
        not move. */
    method Encode(msg: Message, out: seq<Message>) returns (out': seq<Message>)
      requires Valid() && Processable(msg, encrypter.Repr + decrypter.Repr)
      modifies encrypter`gammaPos, encrypter`position, encrypter.counter, encrypter.gamma, Storage(msg)
      ensures Valid() && out' == out + [msg]
      ensures encrypter.position == old(encrypter.position) + old(Payload(msg))
      ensures decrypter.position == old(decrypter.position)
      ensures msg.Buf? ==>
        msg.buf.data[..] == old(msg.buf.data[..msg.buf.readerIndex])
                            + Aesctr.Apply(encrypter.aes, encrypter.key, encrypter.iv, old(encrypter.position), old(msg.buf.Readable()))
                            + old(msg.buf.data[msg.buf.writerIndex..])
    {
      out' := Process(encrypter, msg, out);
    }

    /** `decode`: inbound messages always use the decrypter; the encrypter does
        not move. */
    method Decode(msg: Message, out: seq<Message>) returns (out': seq<Message>)
      requires Valid() && Processable(msg, encrypter.Repr + decrypter.Repr)
      modifies decrypter`gammaPos, decrypter`position, decrypter.counter, decrypter.gamma, Storage(msg)
      ensures Valid() && out' == out + [msg]
      ensures decrypter.position == old(decrypter.position) + old(Payload(msg))
      ensures encrypter.position == old(encrypter.position)
      ensures msg.Buf? ==>
        msg.buf.data[..] == old(msg.buf.data[..msg.buf.readerIndex])
                            + Aesctr.Apply(decrypter.aes, decrypter.key, decrypter.iv, old(decrypter.position), old(msg.buf.Readable()))
                            + old(msg.buf.data[msg.buf.writerIndex..])
    {
      out' := Process(decrypter, msg, out);
    }
  }
}
