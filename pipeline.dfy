/** The part of Netty's channel pipeline the handlers touch, reduced to abstract
    events on a channel: messages written or fired, handlers added, removed or
    replaced, close requests and the auto-read switch. Nothing here is
    concurrent; each call is one event on one connection. */
module Pipeline {
  import opened Common
  import Buffers
  import Aesctr

  /** The messages that travel through a pipeline. */
  datatype Message =
    | Buf(buf: Buffers.ByteBuf)
    | HandshakeCompleted(datacenterNumber: Int32)
    | Other(id: nat)

  /** The handlers the core installs in a pipeline. */
  datatype Handler =
    | Detector
    | HttpStatistics
    | MtStatistics
    | Handshaker(isClient: bool, secret: Option<Bytes>, datacenterNumber: int)
    | DatacenterConnection
    | Forwarding

  /** One effect on a channel or its pipeline. */
  datatype Event =
    | Write(msg: Message)               // `writeAndFlush(msg)`
    | Fire(msg: Message)                // `pipeline().fireChannelRead(msg)`
    /** `context(Obfuscated2Codec.class).fireChannelRead(composite)`: one composite
        buffer made of `parts`, in order, delivered to the handlers after the
        codec (so it is not decoded again). */
    | FireAfterCodec(parts: seq<Buffers.ByteBuf>)
    | Close                             // `close()`
    | AddFirst(handler: Handler)
    | AddLast(handler: Handler)
    | Remove(handler: Handler)
    /** `pipeline().replace(handshaker, "codec", new Obfuscated2Codec(enc, dec))`. */
    | ReplaceWithCodec(encrypter: Aesctr.AESCTR, decrypter: Aesctr.AESCTR)

  /** How an outgoing connection attempt ended, as its future reports it: the
      new channel, or a failure. */
  datatype ConnectOutcome = Connected(channel: Channel) | ConnectFailed

  /** A channel as the handlers see it: the ordered log of effects requested on
      it and its auto-read setting. */
  class Channel {
    var events: seq<Event>
    var autoRead: bool

    constructor ()
      ensures events == [] && autoRead
    {
      events := [];
      autoRead := true;
    }

    /** Whether `close()` has been requested on this channel. */
    predicate CloseRequested()
      reads this
    {
      Close in events
    }

    /** Appends one effect. */
    method Record(e: Event)
      modifies this`events
      ensures events == old(events) + [e]
    {
      events := events + [e];
    }

    /** `config().setAutoRead(on)`. */
    method SetAutoRead(on: bool)
      modifies this`autoRead
      ensures autoRead == on
    {
      autoRead := on;
    }
  }
}
