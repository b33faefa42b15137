/** The last handler of an MTProto connection (DatacenterConnectionHandler.java):
    it buffers what arrives after the handshake, picks an upstream peer from the
    datacenter number, connects to it with a client handshaker, and once that
    handshake is done sets up the relay and releases the buffered bytes. The
    outcomes of the outgoing connection and of its handshake are inputs. */
module DcConnect {
  import opened Common
  import Buffers
  import Aesctr
  import Peers
  import opened Pipeline
  import Handshaker
  import Forwarding
  import Statistics

  /** Java's `%` on `int`: truncating, so the remainder takes the sign of the
      dividend. */
  function JavaRem(a: int, n: int): (r: int)
    requires n > 0
    ensures a >= 0 ==> 0 <= r < n
    ensures a < 0 ==> -n < r <= 0
  {
    if a >= 0 then a % n else -((-a) % n)
  }

  lemma MulMonotone(d: int, n: int)
    requires n > 0 && d > 0
    ensures d * n >= n
  {
    if d > 1 {
      MulMonotone(d - 1, n);
      assert d * n == (d - 1) * n + n;
    }
  }

  /** Euclidean division has one quotient and one remainder. */
  lemma RemainderUnique(a: int, n: int, q: int, r: int)
    requires n > 0 && 0 <= r < n && a == q * n + r
    ensures a % n == r
  {
    var d := q - a / n;
    assert d * n == a % n - r by {
      assert a == (a / n) * n + a % n;
      assert q * n - (a / n) * n == (q - a / n) * n;
    }
    if d > 0 {
      MulMonotone(d, n);
    }
    if d < 0 {
      MulMonotone(-d, n);
    }
  }

  /** Java's remainder against the mathematical residue `a % n` (in 0..n): a
      non-negative Java remainder is the residue, and a negative one is the
      residue minus `n`. */
  lemma JavaRemResidue(a: int, n: int)
    requires n > 0
    ensures JavaRem(a, n) >= 0 ==> JavaRem(a, n) == a % n
    ensures JavaRem(a, n) < 0 ==> JavaRem(a, n) == a % n - n
  {
    if a < 0 {
      var q, r := (-a) / n, (-a) % n;
      assert -a == q * n + r;
      if r == 0 {
        RemainderUnique(a, n, -q, 0);
      } else {
        RemainderUnique(a, n, -q - 1, n - r);
      }
    }
  }

  /** The index `peers.get(dcNumber % peers.size())` reads: an empty list makes
      the remainder divide by zero, and a negative remainder is an index out of
      bounds. The index read is the residue of the datacenter number, and a
      negative number is accepted only when it is a multiple of the list size
      (it then selects the first peer). */
  function SelectPeer(count: nat, dc: Int32): (r: Result<nat>)
    ensures count == 0 ==> r == Err(Arithmetic)
    ensures r.Ok? ==> r.value < count && r.value == dc % count
    ensures count > 0 ==> (r.Ok? <==> dc >= 0 || dc % count == 0)
    ensures count > 0 && r.Err? ==> r.error == IndexOutOfBounds
  {
    if count == 0 then Err(Arithmetic)
    else
      var i := JavaRem(dc, count);
      JavaRemResidue(dc, count);
      if i < 0 then Err(IndexOutOfBounds) else Ok(i)
  }

  /** With a non-negative datacenter number the peers are used round robin:
      `dc` and `dc + count` select the same peer, and consecutive numbers
      select consecutive peers, wrapping at the end of the list. */
  lemma SelectPeerRoundRobin(count: nat, dc: Int32)
    requires count > 0 && 0 <= dc && dc + count < 0x8000_0000
    ensures SelectPeer(count, dc).Ok? && SelectPeer(count, (dc + count) as Int32) == SelectPeer(count, dc)
    ensures SelectPeer(count, (dc + 1) as Int32).value
            == if SelectPeer(count, dc).value + 1 == count then 0 else SelectPeer(count, dc).value + 1
  {
    var q, i := dc / count, dc % count;
    assert dc == q * count + i;
    RemainderUnique(dc + count, count, q + 1, i);
    if i + 1 == count {
      RemainderUnique(dc + 1, count, q + 1, 0);
    } else {
      RemainderUnique(dc + 1, count, q, i + 1);
    }
  }

  /** Three peers: datacenter 4 selects the second, 0 the first, -1 fails, -3
      selects the first, and 2 the third; no peers at all is a division by zero. */
  lemma SelectPeerExamples()
    ensures SelectPeer(3, 4) == Ok(1)
    ensures SelectPeer(3, 0) == Ok(0)
    ensures SelectPeer(3, -1) == Err(IndexOutOfBounds)
    ensures SelectPeer(3, -3) == Ok(0)
    ensures SelectPeer(3, 2) == Ok(2)
    ensures SelectPeer(0, 5) == Err(Arithmetic)
  {
  }

  /** The guard of the handshake listener as written: it tests `f`, the connect
      future of the enclosing listener, which is always successful there. */
  predicate ForwardsAsWritten(connectSucceeded: bool, handshake: Handshaker.Promise)
  {
    connectSucceeded
  }

  /** The guard evidently intended: the handshake promise `f1` succeeded. */
  predicate ForwardsCorrected(connectSucceeded: bool, handshake: Handshaker.Promise)
  {
    handshake == Handshaker.Succeeded
  }

  /** As written, a connection whose upstream handshake failed is still relayed;
      with the intended guard it is relayed exactly when the upstream handshake
      succeeded. */
  lemma HandshakeGuardFinding()
    ensures ForwardsAsWritten(true, Handshaker.Failed) && !ForwardsCorrected(true, Handshaker.Failed)
    ensures forall p :: ForwardsCorrected(true, p) <==> p == Handshaker.Succeeded
  {
  }

  /** The events on the client channel when the relay is set up: the relay
      handler, this handler removed, the buffered bytes fired after the codec. */
  function RelayEvents(awaiting: seq<Buffers.ByteBuf>): seq<Event>
  {
    [AddLast(Forwarding), Remove(DatacenterConnection), FireAfterCodec(awaiting)]
  }

  function ConnectedChannels(connect: ConnectOutcome): set<Channel>
  {
    if connect.Connected? then {connect.channel} else {}
  }

  class DatacenterConnectionHandler {
    /** The configured peers, the cipher primitives for the client handshakers,
        and the server's statistics tracker. */
    const peers: seq<Peers.PeerRecord>
    const aes: Aesctr.BlockCipher
    const sha: Aesctr.Sha256
    const stats: Statistics.StatisticsTracker
    /** The composite buffer of bytes waiting for the relay, as its parts;
        `None` until `handlerAdded`. */
    var awaitingMessages: Option<seq<Buffers.ByteBuf>>
    /** What the connect listener's closure holds: the chosen peer, its
        handshaker and, once connected, the upstream channel. */
    var peer: Option<Peers.PeerRecord>
    var handshaker: Handshaker.Obfuscated2Handshaker?
    var upstream: Channel?

    constructor (peers: seq<Peers.PeerRecord>, aes: Aesctr.BlockCipher, sha: Aesctr.Sha256, stats: Statistics.StatisticsTracker)
      ensures this.peers == peers && this.aes == aes && this.sha == sha && this.stats == stats
      ensures awaitingMessages.None? && peer.None? && handshaker == null && upstream == null
    {
      this.peers, this.aes, this.sha, this.stats := peers, aes, sha, stats;
      awaitingMessages, peer, handshaker, upstream := None, None, null, null;
    }

    /** `handlerAdded`: an empty composite buffer. */
    method HandlerAdded()
      modifies this`awaitingMessages
      ensures awaitingMessages == Some([])
    {
      awaitingMessages := Some([]);
    }

    /** `channelRead(msg)`. A completed handshake stops reading from the client,
        selects the peer for its datacenter number and prepares a client
        handshaker for it (the connection attempt itself is the input of
        `ConnectListener`); a failed selection is thrown. A buffer is appended to
        the waiting bytes (a null composite buffer before `handlerAdded` throws);
        anything else is ignored. */
    method ChannelRead(ch: Channel, msg: Message) returns (thrown: Option<Exception>)
      modifies ch`autoRead, this`awaitingMessages, this`peer, this`handshaker
      ensures msg.HandshakeCompleted? ==>
                && !ch.autoRead && awaitingMessages == old(awaitingMessages)
                && var sel := SelectPeer(|peers|, msg.datacenterNumber);
                && (sel.Err? ==> thrown == Some(sel.error) && unchanged(this`peer, this`handshaker))
                && (sel.Ok? ==> && thrown.None? && peer == Some(peers[sel.value])
                                && handshaker != null && fresh(handshaker) && handshaker.isClient
                                && handshaker.secret == peers[sel.value].secret
                                && handshaker.datacenterNumber == msg.datacenterNumber
                                && handshaker.promise == Handshaker.Unset
                                && handshaker.aes == aes && handshaker.sha == sha)
      ensures msg.Buf? && old(awaitingMessages).None? ==>
                thrown == Some(NullPointer) && awaitingMessages.None?
      ensures msg.Buf? && old(awaitingMessages).Some? ==>
                thrown.None? && awaitingMessages == Some(old(awaitingMessages).value + [msg.buf])
      ensures !msg.HandshakeCompleted? ==> ch.autoRead == old(ch.autoRead) && unchanged(this`peer, this`handshaker)
      ensures msg.Other? ==> thrown.None? && awaitingMessages == old(awaitingMessages)
    {
      thrown := None;
      match msg
      case HandshakeCompleted(dc) =>
        ch.SetAutoRead(false);
        var sel := SelectPeer(|peers|, dc);
        if sel.Err? {
          return Some(sel.error);
        }
        var p := peers[sel.value];
        handshaker := Handshaker.Obfuscated2Handshaker.FromPeer(aes, sha, p, dc);
        peer := Some(p);
      case Buf(b) =>
        if awaitingMessages.None? {
          return Some(NullPointer);
        }
        awaitingMessages := Some(awaitingMessages.value + [b]);
      case Other(_) =>
    }

    /** The connect future's listener. On success the new channel's pipeline
        gets the client handshaker and the handshake listener is registered (the
        upstream channel is remembered for it); on failure the client channel is
        closed and an MTProto connection failure is counted. */
    method ConnectListener(ch: Channel, connect: ConnectOutcome)
      requires peer.Some? && handshaker != null && stats.Valid()
      requires connect.Connected? ==> connect.channel != ch
      modifies this`upstream, ch`events, ConnectedChannels(connect)`events, stats.connectionFailures
      ensures connect.Connected? ==>
                && upstream == connect.channel && ch.events == old(ch.events)
                && connect.channel.events == old(connect.channel.events)
                                      + [AddLast(Handshaker(true, handshaker.secret, handshaker.datacenterNumber))]
                && stats.Snapshot() == old(stats.Snapshot())
      ensures connect.ConnectFailed? ==>
                && upstream == old(upstream) && ch.events == old(ch.events) + [Event.Close]
                && stats.Snapshot() == Statistics.Step(old(stats.Snapshot()), Statistics.Failed(Statistics.MtProto))
    {
      match connect
      case Connected(c) =>
        c.Record(AddLast(Handshaker(true, handshaker.secret, handshaker.datacenterNumber)));
        upstream := c;
      case ConnectFailed =>
        ch.Record(Event.Close);
        stats.ConnectionFailed(Statistics.MtProto);
    }

    /** The handshake promise's listener AS WRITTEN: its guard is the connect
        future, so the relay is set up, this handler removed, the waiting bytes
        released after the codec and reading resumed whatever the upstream
        handshake's outcome, a failed one included. */
    method HandshakeListenerAsWritten(ch: Channel) returns (forwarded: bool)
      requires upstream != null && upstream != ch && handshaker != null && awaitingMessages.Some?
      modifies ch`events, ch`autoRead, upstream`events
      ensures forwarded == ForwardsAsWritten(true, handshaker.promise)
      ensures ch.events == old(ch.events) + RelayEvents(awaitingMessages.value) && ch.autoRead
      ensures upstream.events == old(upstream.events) + [AddLast(Forwarding)]
    {
      forwarded := true;
      Relay(ch);
    }

    /** The handshake promise's listener with the intended guard: the relay is
        set up only when the upstream handshake succeeded; otherwise nothing
        happens here (the failing handshaker has already closed the upstream
        channel). */
    method HandshakeListener(ch: Channel) returns (forwarded: bool)
      requires upstream != null && upstream != ch && handshaker != null && awaitingMessages.Some?
      modifies ch`events, ch`autoRead, upstream`events
      ensures forwarded == ForwardsCorrected(true, handshaker.promise)
      ensures forwarded <==> handshaker.promise == Handshaker.Succeeded
      ensures forwarded ==>
                && ch.events == old(ch.events) + RelayEvents(awaitingMessages.value) && ch.autoRead
                && upstream.events == old(upstream.events) + [AddLast(Forwarding)]
      ensures !forwarded ==> unchanged(ch, upstream)
    {
      forwarded := handshaker.promise == Handshaker.Succeeded;
      if forwarded {
        Relay(ch);
      }
    }

    /** The body of the handshake listener: relay between the client channel
        and the upstream channel, leave the pipeline, fire the waiting bytes
        after the codec, resume reading. */
    method Relay(ch: Channel)
      requires upstream != null && upstream != ch && awaitingMessages.Some?
      modifies ch`events, ch`autoRead, upstream`events
      ensures ch.events == old(ch.events) + RelayEvents(awaitingMessages.value) && ch.autoRead
      ensures upstream.events == old(upstream.events) + [AddLast(Forwarding)]
    {
      var first, second := Forwarding.ForwardingHandler.SetupForwarding(ch, upstream);
      ch.Record(Remove(DatacenterConnection));
      ch.Record(FireAfterCodec(awaitingMessages.value));
      ch.SetAutoRead(true);
    }

    /** `exceptionCaught`: the client channel is closed. */
    method ExceptionCaught(ch: Channel)
      modifies ch`events
      ensures ch.events == old(ch.events) + [Event.Close]
    {
      ch.Record(Event.Close);
    }
  }
}
