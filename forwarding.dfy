/** The relay between two channels (ForwardingHandler.java): one handler on each
    channel, each writing what it reads to the other channel, linked to each
    other so that closing either side closes both exactly once. */
module Forwarding {
  import opened Common
  import opened Pipeline

  class ForwardingHandler {
    /** The channel this handler writes to: the other end of the relay. */
    const to: Channel
    var peerHandler: ForwardingHandler?
    var isClosed: bool

    /** The two handlers of a relay point at each other. */
    ghost predicate Linked()
      reads this, peerHandler
    {
      peerHandler != null && peerHandler.peerHandler == this && peerHandler != this
    }

    /** A handler is never closed while its peer is still open, except inside
        the nested `close` call that is about to close the peer. */
    ghost predicate Settled()
      reads this, peerHandler
      requires Linked()
    {
      isClosed ==> peerHandler.isClosed
    }

    /** The number of handlers of the pair that have not yet closed: what each
        nested `close` call lowers. */
    ghost function OpenCount(): nat
      reads this, peerHandler
      requires Linked()
    {
      (if isClosed then 0 else 1) + (if peerHandler.isClosed then 0 else 1)
    }

    /** `new ForwardingHandler(to)`: not linked and not closed. */
    constructor (to: Channel)
      ensures this.to == to && peerHandler == null && !isClosed
    {
      this.to := to;
      peerHandler := null;
      isClosed := false;
    }

    /** `setupForwarding(src, dst)`: the handler for `src` writes to `dst` and
        the handler for `dst` writes to `src`; they are linked to each other and
        appended to their channels' pipelines. */
    static method SetupForwarding(src: Channel, dst: Channel) returns (first: ForwardingHandler, second: ForwardingHandler)
      modifies src`events, dst`events
      ensures fresh(first) && fresh(second)
      ensures first.to == dst && second.to == src
      ensures first.Linked() && first.peerHandler == second && !first.isClosed && !second.isClosed
      ensures src != dst ==> src.events == old(src.events) + [AddLast(Forwarding)]
                             && dst.events == old(dst.events) + [AddLast(Forwarding)]
      ensures src == dst ==> src.events == old(src.events) + [AddLast(Forwarding), AddLast(Forwarding)]
    {
      first := new ForwardingHandler(dst);
      second := new ForwardingHandler(src);
      first.peerHandler := second;
      second.peerHandler := first;
      src.Record(AddLast(Forwarding));
      dst.Record(AddLast(Forwarding));
    }

    /** `channelRead`: the message goes unchanged to the other channel. */
    method ChannelRead(msg: Message)
      modifies to`events
      ensures to.events == old(to.events) + [Write(msg)]
    {
      to.Record(Write(msg));
    }

    /** `close()`: the first call marks this handler closed, closes the channel
        it writes to and then closes its peer; later calls do nothing. Starting
        with both sides open, both channels receive exactly one close, and the
        nested calls stop after two activations of the body (`activations`). */
    method Close() returns (ghost activations: nat)
      requires Linked() && Settled()
      modifies this`isClosed, peerHandler`isClosed, to`events, peerHandler.to`events
      ensures Linked() && isClosed && peerHandler.isClosed
      ensures activations == old(OpenCount()) && activations <= 2
      ensures old(isClosed) ==> to.events == old(to.events) && peerHandler.to.events == old(peerHandler.to.events)
      ensures !old(isClosed) && old(peerHandler.isClosed) ==> to.events == old(to.events) + [Event.Close]
      ensures !old(isClosed) && old(peerHandler.isClosed) && to != peerHandler.to ==>
                peerHandler.to.events == old(peerHandler.to.events)
      ensures !old(isClosed) && !old(peerHandler.isClosed) && to != peerHandler.to ==>
                to.events == old(to.events) + [Event.Close] && peerHandler.to.events == old(peerHandler.to.events) + [Event.Close]
      ensures !old(isClosed) && !old(peerHandler.isClosed) && to == peerHandler.to ==>
                to.events == old(to.events) + [Event.Close, Event.Close]
      decreases OpenCount()
    {
      if isClosed {
        return 0;
      }
      isClosed := true;
      to.Record(Event.Close);
      var more := peerHandler.Close();
      activations := 1 + more;
    }

    /** `channelInactive`: the relay is torn down, exactly as by `close()`. */
    method ChannelInactive() returns (ghost activations: nat)
      requires Linked() && Settled()
      modifies this`isClosed, peerHandler`isClosed, to`events, peerHandler.to`events
      ensures Linked() && isClosed && peerHandler.isClosed
      ensures activations == old(OpenCount()) && activations <= 2
      ensures old(isClosed) ==> to.events == old(to.events) && peerHandler.to.events == old(peerHandler.to.events)
      ensures !old(isClosed) && old(peerHandler.isClosed) ==> to.events == old(to.events) + [Event.Close]
      ensures !old(isClosed) && old(peerHandler.isClosed) && to != peerHandler.to ==>
                peerHandler.to.events == old(peerHandler.to.events)
      ensures !old(isClosed) && !old(peerHandler.isClosed) && to != peerHandler.to ==>
                to.events == old(to.events) + [Event.Close] && peerHandler.to.events == old(peerHandler.to.events) + [Event.Close]
      ensures !old(isClosed) && !old(peerHandler.isClosed) && to == peerHandler.to ==>
                to.events == old(to.events) + [Event.Close, Event.Close]
    {
      activations := Close();
    }

    /** `exceptionCaught`: the handler's own channel `ch` is closed, then the
        relay is torn down. The handler's own channel is the one its peer writes
        to. */
    method ExceptionCaught(ch: Channel) returns (ghost activations: nat)
      requires Linked() && Settled() && ch == peerHandler.to && to != ch
      modifies this`isClosed, peerHandler`isClosed, to`events, ch`events
      ensures Linked() && isClosed && peerHandler.isClosed
      ensures !old(isClosed) && !old(peerHandler.isClosed) ==>
                ch.events == old(ch.events) + [Event.Close, Event.Close] && to.events == old(to.events) + [Event.Close]
      ensures old(isClosed) ==> ch.events == old(ch.events) + [Event.Close] && to.events == old(to.events)
    {
      ch.Record(Event.Close);
      activations := Close();
    }
  }
}
