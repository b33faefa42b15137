/** The first handler of every accepted connection (ProtocolDetector.java): it
    peeks at the first four bytes and either hands the connection to an HTTP
    backend or sets up the MTProto pipeline. */
module Detector {
  import opened Common
  import Utils
  import Buffers
  import Aesctr
  import Handshake
  import opened Pipeline
  import Forwarding
  import Statistics

  /** The openings `isHttpMarker` recognises. */
  const HTTP_PREFIXES: set<Bytes> := {Handshake.POST, Handshake.GET, Handshake.HEAD, Handshake.OPTI}

  /** `isHttpMarker(marker)`: the four constants are "POST", "GET ", "HEAD" and
      "OPTI" read as big-endian words, so a marker is accepted exactly when its
      bytes, most significant first, are one of the four openings. */
  function IsHttpMarker(marker: bv32): (r: bool)
    ensures var b := Utils.LittleEndianBytes(marker);
            r <==> [b[3], b[2], b[1], b[0]] in HTTP_PREFIXES
  {
    HttpWords();
    Utils.LittleEndianInjective(marker, 0x504f_5354);
    Utils.LittleEndianInjective(marker, 0x4745_5420);
    Utils.LittleEndianInjective(marker, 0x4845_4144);
    Utils.LittleEndianInjective(marker, 0x4f50_5449);
    marker == 0x504f_5354 || marker == 0x4745_5420 || marker == 0x4845_4144 || marker == 0x4f50_5449
  }

  /** The little-endian images of the four big-endian constants. */
  lemma HttpWords()
    ensures Utils.LittleEndianBytes(0x504f_5354) == [0x54, 0x53, 0x4F, 0x50]
    ensures Utils.LittleEndianBytes(0x4745_5420) == [0x20, 0x54, 0x45, 0x47]
    ensures Utils.LittleEndianBytes(0x4845_4144) == [0x44, 0x41, 0x45, 0x48]
    ensures Utils.LittleEndianBytes(0x4f50_5449) == [0x49, 0x54, 0x50, 0x4F]
  {
  }

  /** The big-endian word at the start of `b` is an HTTP marker exactly when
      `b` starts with one of the four ASCII openings. */
  lemma HttpMarkerMeaning(b: Bytes)
    requires |b| >= 4
    ensures IsHttpMarker(Buffers.BigEndianWord(b, 0)) <==> b[..4] in HTTP_PREFIXES
  {
    var w := Buffers.BigEndianWord(b, 0);
    HttpWords();
    Utils.LittleEndianInjective(w, 0x504f_5354);
    Utils.LittleEndianInjective(w, 0x4745_5420);
    Utils.LittleEndianInjective(w, 0x4845_4144);
    Utils.LittleEndianInjective(w, 0x4f50_5449);
    assert b[..4] == [b[0], b[1], b[2], b[3]];
  }

  /** How `channelRead` classifies the readable bytes of the first message:
      HTTP when at least four bytes are there and they form a marker; MTProto
      otherwise, including when fewer than four bytes have arrived. */
  function Classify(readable: Bytes): (t: Statistics.ConnectionType)
    ensures |readable| < 4 ==> t == Statistics.MtProto
    ensures |readable| >= 4 ==> (t == Statistics.Http <==> readable[..4] in HTTP_PREFIXES)
  {
    if |readable| >= 4 then
      HttpMarkerMeaning(readable);
      if IsHttpMarker(Buffers.BigEndianWord(readable, 0)) then Statistics.Http else Statistics.MtProto
    else Statistics.MtProto
  }

  /** A client handshake this proxy sends is never taken for HTTP by another
      instance: its first four bytes go out in the clear and the signature
      check has already excluded the HTTP openings. */
  lemma ClientPacketIsNotHttp(aes: Aesctr.BlockCipher, sha: Aesctr.Sha256, secret: Option<Bytes>, random: Bytes, dc: int)
    requires |random| == Handshake.HANDSHAKE_LENGTH && !Handshake.CheckForSignatures(random)
    ensures Classify(Handshake.ClientWire(aes, sha, secret, random, dc)) == Statistics.MtProto
  {
    var w := Handshake.ClientWire(aes, sha, secret, random, dc);
    assert w[..4] == random[..4] by {
      assert w[..4] == w[..56][..4];
      assert Handshake.ClientPlain(random, dc)[..56][..4] == random[..56][..4];
    }
  }

  /** The pipeline changes of the MTProto path for the first message `msg`. */
  function MtSetupEvents(secretKey: Bytes, msg: Message): seq<Event>
  {
    [Remove(Detector), AddLast(MtStatistics), AddLast(Handshaker(false, Some(secretKey), 0)),
     AddLast(DatacenterConnection), Fire(msg)]
  }

  /** The pipeline changes of the HTTP path once the backend is connected, as
      written: the HTTP statistics handler goes first, the relay is appended and
      the first message is fired again from the head of the pipeline, with the
      detector still installed. */
  function HttpSetupEvents(buf: Buffers.ByteBuf): seq<Event>
  {
    [AddFirst(HttpStatistics), AddLast(Forwarding), Fire(Buf(buf))]
  }

  /** The HTTP path as evidently intended: like the MTProto path, the detector
      leaves the pipeline before the first message is fired again, so the
      message goes on to the relay. */
  function HttpSetupEventsCorrected(buf: Buffers.ByteBuf): seq<Event>
  {
    [AddFirst(HttpStatistics), AddLast(Forwarding), Remove(Detector), Fire(Buf(buf))]
  }

  /** Some message fired into the pipeline in `log` meets the detector again:
      no removal of the detector precedes it. */
  predicate RefireReachesDetector(log: seq<Event>)
  {
    exists k :: 0 <= k < |log| && log[k].Fire? && Remove(Detector) !in log[..k]
  }

  /** The HTTP re-fire as written loops back into the detector: the message is
      fired while the detector is still installed, and since its readable bytes
      are unchanged the detector classifies it as HTTP again, so it never
      reaches the relay and another backend connection is opened. With the
      corrected order no re-fired message meets the detector. `buf` is the
      message itself: `ProtocolDetector.ChannelRead` leaves its readable bytes
      as they were, so the second pass reads the same HTTP opening. */
  lemma HttpRefireFinding(buf: Buffers.ByteBuf)
    requires buf.Valid() && |buf.Readable()| >= 4 && buf.Readable()[..4] in HTTP_PREFIXES
    ensures Classify(buf.Readable()) == Statistics.Http
    ensures RefireReachesDetector(HttpSetupEvents(buf))
    ensures !RefireReachesDetector(HttpSetupEventsCorrected(buf))
  {
    var log := HttpSetupEvents(buf);
    assert log[2].Fire? && Remove(Detector) !in log[..2];
    CorrectedRefireSkipsDetector(buf);
  }

  /** In the corrected order the detector is gone before any re-fire. */
  lemma CorrectedRefireSkipsDetector(buf: Buffers.ByteBuf)
    ensures !RefireReachesDetector(HttpSetupEventsCorrected(buf))
  {
    var fixed := HttpSetupEventsCorrected(buf);
    forall k | 0 <= k < |fixed| && fixed[k].Fire?
      ensures Remove(Detector) in fixed[..k]
    {
      assert k == 3 && fixed[..k][2] == Remove(Detector);
    }
  }

  /** The channels a connection attempt produced. */
  function ConnectedChannels(connect: ConnectOutcome): set<Channel>
  {
    if connect.Connected? then {connect.channel} else {}
  }

  class ProtocolDetector {
    /** The configuration's HTTP backend address, if any, and its secret key. */
    const httpBackend: Option<Utils.Address>
    const secretKey: Bytes

    constructor (httpBackend: Option<Utils.Address>, secretKey: Bytes)
      ensures this.httpBackend == httpBackend && this.secretKey == secretKey
    {
      this.httpBackend := httpBackend;
      this.secretKey := secretKey;
    }

    /** `channelRead(msg)` for the first message of a connection: with four or
        more readable bytes, the big-endian word at the reader index is read
        between a mark and a reset; an HTTP marker goes to the HTTP path, and
        everything else, including a message shorter than four bytes, to the
        MTProto path. The buffer's indices and contents end as they started.
        On the HTTP path the message is fired again with the detector still
        installed, as written (`HttpRefireFinding`).
        `connect` is the result of the backend connection the HTTP path opens. */
    method ChannelRead(ch: Channel, buf: Buffers.ByteBuf, connect: ConnectOutcome) returns (kind: Statistics.ConnectionType)
      requires buf.Valid()
      requires connect.Connected? ==> connect.channel != ch
      modifies buf`readerIndex, buf`markedReaderIndex, ch`events, ConnectedChannels(connect)`events
      ensures buf.Valid() && buf.readerIndex == old(buf.readerIndex) && buf.writerIndex == old(buf.writerIndex)
      ensures buf.Readable() == old(buf.Readable())
      ensures kind == Classify(old(buf.Readable()))
      ensures kind == Statistics.MtProto ==> ch.events == old(ch.events) + MtSetupEvents(secretKey, Buf(buf))
      ensures kind == Statistics.Http && httpBackend.None? ==> ch.events == old(ch.events) + [Event.Close]
      ensures kind == Statistics.Http && httpBackend.Some? && connect.ConnectFailed? ==>
                ch.events == old(ch.events) + [Event.Close]
      ensures kind == Statistics.Http && httpBackend.Some? && connect.Connected? ==>
                && ch.events == old(ch.events) + HttpSetupEvents(buf)
                && connect.channel.events == old(connect.channel.events) + [AddLast(Forwarding)]
      ensures kind == Statistics.MtProto || httpBackend.None? || connect.ConnectFailed? ==>
                connect.Connected? ==> connect.channel.events == old(connect.channel.events)
    {
      ghost var readable := buf.Readable();
      if buf.ReadableCount() >= 4 {
        buf.MarkReaderIndex();
        var marker := buf.ReadInt();
        buf.ResetReaderIndex();
        assert marker == Buffers.BigEndianWord(readable, 0);
        if IsHttpMarker(marker) {
          SetupHttpConnection(ch, buf, connect);
          return Statistics.Http;
        }
      }
      SetupMtConnection(ch, Buf(buf));
      return Statistics.MtProto;
    }

    /** `setupHttpConnection`, as written: without a backend the connection is
        closed at once; otherwise, when the backend connection succeeds, the
        HTTP statistics handler goes first, the relay is set up and the first
        message is fired again, unread, with the detector still in the
        pipeline (`HttpRefireFinding`); when it fails, the connection is
        closed. */
    method SetupHttpConnection(ch: Channel, buf: Buffers.ByteBuf, connect: ConnectOutcome)
      requires connect.Connected? ==> connect.channel != ch
      modifies ch`events, ConnectedChannels(connect)`events
      ensures httpBackend.None? || connect.ConnectFailed? ==> ch.events == old(ch.events) + [Event.Close]
      ensures httpBackend.Some? && connect.Connected? ==>
                && ch.events == old(ch.events) + HttpSetupEvents(buf)
                && connect.channel.events == old(connect.channel.events) + [AddLast(Forwarding)]
      ensures httpBackend.None? && connect.Connected? ==> connect.channel.events == old(connect.channel.events)
    {
      if httpBackend.None? {
        ch.Record(Event.Close);
        return;
      }
      match connect
      case Connected(backendChannel) =>
        ch.Record(AddFirst(HttpStatistics));
        var first, second := Forwarding.ForwardingHandler.SetupForwarding(ch, backendChannel);
        ch.Record(Fire(Buf(buf)));
      case ConnectFailed =>
        ch.Record(Event.Close);
    }

    /** `setupHttpConnection` as evidently intended: the same, except that the
        detector removes itself before the first message is fired again, so
        the message reaches the relay. */
    method SetupHttpConnectionCorrected(ch: Channel, buf: Buffers.ByteBuf, connect: ConnectOutcome)
      requires connect.Connected? ==> connect.channel != ch
      modifies ch`events, ConnectedChannels(connect)`events
      ensures httpBackend.None? || connect.ConnectFailed? ==> ch.events == old(ch.events) + [Event.Close]
      ensures httpBackend.Some? && connect.Connected? ==>
                && ch.events == old(ch.events) + HttpSetupEventsCorrected(buf)
                && connect.channel.events == old(connect.channel.events) + [AddLast(Forwarding)]
                && !RefireReachesDetector(ch.events[|old(ch.events)|..])
      ensures httpBackend.None? && connect.Connected? ==> connect.channel.events == old(connect.channel.events)
    {
      if httpBackend.None? {
        ch.Record(Event.Close);
        return;
      }
      match connect
      case Connected(backendChannel) =>
        ch.Record(AddFirst(HttpStatistics));
        var first, second := Forwarding.ForwardingHandler.SetupForwarding(ch, backendChannel);
        ch.Record(Remove(Detector));
        ch.Record(Fire(Buf(buf)));
        assert ch.events[|old(ch.events)|..] == HttpSetupEventsCorrected(buf);
        CorrectedRefireSkipsDetector(buf);
      case ConnectFailed =>
        ch.Record(Event.Close);
    }

    /** `setupMtConnection`: the detector leaves the pipeline, the MTProto
        statistics handler, a server-side handshaker with the configured secret
        and the datacenter connection handler are appended, and the first
        message is fired again. */
    method SetupMtConnection(ch: Channel, msg: Message)
      modifies ch`events
      ensures ch.events == old(ch.events) + MtSetupEvents(secretKey, msg)
    {
      ch.Record(Remove(Detector));
      ch.Record(AddLast(MtStatistics));
      ch.Record(AddLast(Handshaker(false, Some(secretKey), 0)));
      ch.Record(AddLast(DatacenterConnection));
      ch.Record(Fire(msg));
    }

    /** `exceptionCaught`: the connection is closed. */
    method ExceptionCaught(ch: Channel)
      modifies ch`events
      ensures ch.events == old(ch.events) + [Event.Close]
    {
      ch.Record(Event.Close);
    }
  }
}
