/** The statistics counter table (StatisticsTracker.java): for every connection
    type, how many connections started, how many are active, how many failed,
    how many ended in an exception, and how many bytes were forwarded. The Java
    counters are atomic; here each update is one sequential step, with the
    32-bit and 64-bit wrap-around of `incrementAndGet` and `addAndGet` written
    out. */
module Statistics {
  import opened Common

  /** The kinds of connection the proxy tells apart. */
  datatype ConnectionType = Http | MtProto

  const TYPE_COUNT: nat := 2

  /** `type.ordinal()`: the slot of a type in every counter array. */
  function Ordinal(t: ConnectionType): (n: nat)
    ensures n < TYPE_COUNT
  {
    match t
    case Http => 0
    case MtProto => 1
  }

  const TWO_TO_32: int := 0x1_0000_0000
  const TWO_TO_64: int := 0x1_0000_0000_0000_0000

  /** The Java `int` that arithmetic result `x` wraps to. */
  function Wrap32(x: int): (r: Int32)
    ensures (x - r) % TWO_TO_32 == 0
    ensures Int32Range(x) ==> r == x
  {
    (x + 0x8000_0000) % TWO_TO_32 - 0x8000_0000
  }

  /** The Java `long` that arithmetic result `x` wraps to. */
  function Wrap64(x: int): (r: Int64)
    ensures (x - r) % TWO_TO_64 == 0
    ensures Int64Range(x) ==> r == x
  {
    (x + 0x8000_0000_0000_0000) % TWO_TO_64 - 0x8000_0000_0000_0000
  }

  predicate Int32Range(x: int)
  {
    -0x8000_0000 <= x < 0x8000_0000
  }

  predicate Int64Range(x: int)
  {
    -0x8000_0000_0000_0000 <= x < 0x8000_0000_0000_0000
  }

  /** Wrapping an intermediate result does not change the final wrapped value. */
  lemma Wrap32Add(x: int, d: int)
    ensures Wrap32(Wrap32(x) + d) == Wrap32(x + d)
  {
    var k := (x + 0x8000_0000) / TWO_TO_32;
    assert Wrap32(x) == x - k * TWO_TO_32;
    ModShift32(x + d + 0x8000_0000, -k);
  }

  lemma Wrap64Add(x: int, d: int)
    ensures Wrap64(Wrap64(x) + d) == Wrap64(x + d)
  {
    var k := (x + 0x8000_0000_0000_0000) / TWO_TO_64;
    assert Wrap64(x) == x - k * TWO_TO_64;
    ModShift64(x + d + 0x8000_0000_0000_0000, -k);
  }

  /** Adding a multiple of the modulus leaves a remainder unchanged. */
  lemma ModShift32(a: int, k: int)
    ensures (a + k * TWO_TO_32) % TWO_TO_32 == a % TWO_TO_32
  {
  }

  lemma ModShift64(a: int, k: int)
    ensures (a + k * TWO_TO_64) % TWO_TO_64 == a % TWO_TO_64
  {
  }

  // ---------------------------------------------------------------------------
  // The counters as values
  // ---------------------------------------------------------------------------

  /** The contents of the five counter arrays. */
  datatype Counters = Counters(counts: seq<Int32>, active: seq<Int32>, failures: seq<Int32>,
                               exceptions: seq<Int32>, bytes: seq<Int64>)
  {
    predicate WellSized()
    {
      |counts| == |active| == |failures| == |exceptions| == |bytes| == TYPE_COUNT
    }
  }

  /** The calls that change the counters. */
  datatype StatEvent =
    | Started(t: ConnectionType)
    | Finished(t: ConnectionType)
    | Failed(t: ConnectionType)
    | Excepted(t: ConnectionType)
    | Forwarded(t: ConnectionType, n: Int64)

  /** Every counter of every type at zero, as after construction. */
  function Zero(): (c: Counters)
    ensures c.WellSized()
  {
    Counters([0, 0], [0, 0], [0, 0], [0, 0], [0, 0])
  }

  /** The effect of one call on the table. */
  function Step(c: Counters, e: StatEvent): (c': Counters)
    requires c.WellSized()
    ensures c'.WellSized()
  {
    var i := Ordinal(e.t);
    match e
    case Started(_) => c.(counts := c.counts[i := Wrap32(c.counts[i] as int + 1)], active := c.active[i := Wrap32(c.active[i] as int + 1)])
    case Finished(_) => c.(active := c.active[i := Wrap32(c.active[i] as int - 1)])
    case Failed(_) => c.(failures := c.failures[i := Wrap32(c.failures[i] as int + 1)])
    case Excepted(_) => c.(exceptions := c.exceptions[i := Wrap32(c.exceptions[i] as int + 1)])
    case Forwarded(_, n) => c.(bytes := c.bytes[i := Wrap64(c.bytes[i] as int + n)])
  }

  /** The table after a sequence of calls on a fresh tracker. */
  function Replay(log: seq<StatEvent>): (c: Counters)
    ensures c.WellSized()
  {
    if log == [] then Zero() else Step(Replay(log[..|log| - 1]), log[|log| - 1])
  }

  /** The unwrapped totals of the calls for one type: connections started and
      finished, failures, exceptions, and bytes forwarded. */
  datatype Tallies = Tallies(started: int, finished: int, failed: int, excepted: int, bytes: int)

  /** The totals after one more call. */
  function TallyStep(a: Tallies, e: StatEvent, t: ConnectionType): Tallies
  {
    if e.t != t then a
    else match e
      case Started(_) => a.(started := a.started + 1)
      case Finished(_) => a.(finished := a.finished + 1)
      case Failed(_) => a.(failed := a.failed + 1)
      case Excepted(_) => a.(excepted := a.excepted + 1)
      case Forwarded(_, n) => a.(bytes := a.bytes + n)
  }

  /** The totals of a sequence of calls for type `t`. */
  function Tally(log: seq<StatEvent>, t: ConnectionType): Tallies
  {
    if log == [] then Tallies(0, 0, 0, 0, 0) else TallyStep(Tally(log[..|log| - 1], t), log[|log| - 1], t)
  }

  /** Slot `i` of the table holds the totals `a`, wrapped to the Java widths; the
      active count is the starts minus the finishes. */
  predicate Agrees(c: Counters, i: nat, a: Tallies)
    requires c.WellSized() && i < TYPE_COUNT
  {
    && c.counts[i] == Wrap32(a.started)
    && c.active[i] == Wrap32(a.started - a.finished)
    && c.failures[i] == Wrap32(a.failed)
    && c.exceptions[i] == Wrap32(a.excepted)
    && c.bytes[i] == Wrap64(a.bytes)
  }

  /** One call keeps the table in agreement with the totals. */
  lemma StepAgrees(c: Counters, a: Tallies, e: StatEvent, t: ConnectionType)
    requires c.WellSized() && Agrees(c, Ordinal(t), a)
    ensures Agrees(Step(c, e), Ordinal(t), TallyStep(a, e, t))
  {
    if e.t != t {
      StepIsolated(c, e, t);
    } else if e.Started? {
      StartedAgrees(c, a, t);
    } else if e.Finished? {
      Wrap32Add(a.started - a.finished, -1);
    } else if e.Failed? {
      Wrap32Add(a.failed, 1);
    } else if e.Excepted? {
      Wrap32Add(a.excepted, 1);
    } else {
      Wrap64Add(a.bytes, e.n);
    }
  }

  lemma StartedAgrees(c: Counters, a: Tallies, t: ConnectionType)
    requires c.WellSized() && Agrees(c, Ordinal(t), a)
    ensures Agrees(Step(c, Started(t)), Ordinal(t), TallyStep(a, Started(t), t))
  {
    Wrap32Add(a.started, 1);
    Wrap32Add(a.started - a.finished, 1);
  }

  /** What the counters mean: after any sequence of calls on a fresh tracker,
      each counter of a type is the number of calls of its kind for that type
      (the active count: starts minus finishes; the byte counter: the sum
      forwarded), wrapped to the Java integer width. */
  lemma {:induction false} ReplayTallies(log: seq<StatEvent>, t: ConnectionType)
    ensures Agrees(Replay(log), Ordinal(t), Tally(log, t))
  {
    if log != [] {
      ReplayTallies(log[..|log| - 1], t);
      StepAgrees(Replay(log[..|log| - 1]), Tally(log[..|log| - 1], t), log[|log| - 1], t);
    }
  }

  /** A call for one type leaves every counter of every other type alone. */
  lemma StepIsolated(c: Counters, e: StatEvent, t: ConnectionType)
    requires c.WellSized() && t != e.t
    ensures var c', i := Step(c, e), Ordinal(t);
            && c'.counts[i] == c.counts[i] && c'.active[i] == c.active[i] && c'.failures[i] == c.failures[i]
            && c'.exceptions[i] == c.exceptions[i] && c'.bytes[i] == c.bytes[i]
  {
  }

  // ---------------------------------------------------------------------------
  // The tracker
  // ---------------------------------------------------------------------------

  class StatisticsTracker {
    const connectionCounts: array<Int32>
    const activeConnections: array<Int32>
    const connectionFailures: array<Int32>
    const connectionExceptions: array<Int32>
    const bytesForwarded: array<Int64>

    /** One slot per connection type in five separate arrays. */
    ghost predicate Valid()
    {
      && connectionCounts.Length == activeConnections.Length == connectionFailures.Length
         == connectionExceptions.Length == bytesForwarded.Length == TYPE_COUNT
      && connectionCounts != activeConnections && connectionCounts != connectionFailures
      && connectionCounts != connectionExceptions && activeConnections != connectionFailures
      && activeConnections != connectionExceptions && connectionFailures != connectionExceptions
    }

    /** The table as a value. */
    ghost function Snapshot(): (c: Counters)
      reads connectionCounts, activeConnections, connectionFailures, connectionExceptions, bytesForwarded
      requires Valid()
      ensures c.WellSized()
    {
      Counters(connectionCounts[..], activeConnections[..], connectionFailures[..], connectionExceptions[..], bytesForwarded[..])
    }

    /** Allocates the five arrays and sets every counter to zero. */
    constructor ()
      ensures Valid() && Snapshot() == Zero()
      ensures fresh(connectionCounts) && fresh(activeConnections) && fresh(connectionFailures)
              && fresh(connectionExceptions) && fresh(bytesForwarded)
    {
      var counts := new Int32[TYPE_COUNT];
      var active := new Int32[TYPE_COUNT];
      var failures := new Int32[TYPE_COUNT];
      var exceptions := new Int32[TYPE_COUNT];
      var bytes := new Int64[TYPE_COUNT];
      var i := 0;
      while i < counts.Length
        invariant 0 <= i <= TYPE_COUNT
        invariant forall j :: 0 <= j < i ==> counts[j] == 0 && active[j] == 0 && failures[j] == 0
                                             && exceptions[j] == 0 && bytes[j] == 0
      {
        counts[i] := 0;
        active[i] := 0;
        failures[i] := 0;
        exceptions[i] := 0;
        bytes[i] := 0;
        i := i + 1;
      }
      connectionCounts, activeConnections, connectionFailures := counts, active, failures;
      connectionExceptions, bytesForwarded := exceptions, bytes;
      assert counts[..] == [0, 0] && active[..] == [0, 0] && failures[..] == [0, 0];
      assert exceptions[..] == [0, 0] && bytes[..] == [0, 0];
    }

    /** `connectionStarted(t)`: one more connection of type `t`, and one more
        active. */
    method ConnectionStarted(t: ConnectionType)
      requires Valid()
      modifies connectionCounts, activeConnections
      ensures Snapshot() == Step(old(Snapshot()), Started(t))
    {
      var i := Ordinal(t);
      connectionCounts[i] := Wrap32(connectionCounts[i] as int + 1);
      activeConnections[i] := Wrap32(activeConnections[i] as int + 1);
    }

    /** `connectionFinished(t)`: one fewer active connection of type `t`. */
    method ConnectionFinished(t: ConnectionType)
      requires Valid()
      modifies activeConnections
      ensures Snapshot() == Step(old(Snapshot()), Finished(t))
    {
      var i := Ordinal(t);
      activeConnections[i] := Wrap32(activeConnections[i] as int - 1);
    }

    /** `connectionFailed(t)`. */
    method ConnectionFailed(t: ConnectionType)
      requires Valid()
      modifies connectionFailures
      ensures Snapshot() == Step(old(Snapshot()), Failed(t))
    {
      var i := Ordinal(t);
      connectionFailures[i] := Wrap32(connectionFailures[i] as int + 1);
    }

    /** `connectionException(t)`. */
    method ConnectionException(t: ConnectionType)
      requires Valid()
      modifies connectionExceptions
      ensures Snapshot() == Step(old(Snapshot()), Excepted(t))
    {
      var i := Ordinal(t);
      connectionExceptions[i] := Wrap32(connectionExceptions[i] as int + 1);
    }

    /** `bytesForwarded(t, n)`. */
    method BytesForwarded(t: ConnectionType, n: Int64)
      requires Valid()
      modifies bytesForwarded
      ensures Snapshot() == Step(old(Snapshot()), Forwarded(t, n))
    {
      var i := Ordinal(t);
      bytesForwarded[i] := Wrap64(bytesForwarded[i] as int + n);
    }

    /** `getConnectionCount(t)`. */
    method GetConnectionCount(t: ConnectionType) returns (r: Int32)
      requires Valid()
      ensures r == Snapshot().counts[Ordinal(t)]
    {
      r := connectionCounts[Ordinal(t)];
    }

    /** `getActiveConnections(t)`. */
    method GetActiveConnections(t: ConnectionType) returns (r: Int32)
      requires Valid()
      ensures r == Snapshot().active[Ordinal(t)]
    {
      r := activeConnections[Ordinal(t)];
    }

    /** `getConnectionFailures(t)`. */
    method GetConnectionFailures(t: ConnectionType) returns (r: Int32)
      requires Valid()
      ensures r == Snapshot().failures[Ordinal(t)]
    {
      r := connectionFailures[Ordinal(t)];
    }

    /** `getConnectionExceptions(t)`. */
    method GetConnectionExceptions(t: ConnectionType) returns (r: Int32)
      requires Valid()
      ensures r == Snapshot().exceptions[Ordinal(t)]
    {
      r := connectionExceptions[Ordinal(t)];
    }

    /** `getBytesForwarded(t)`. */
    method GetBytesForwarded(t: ConnectionType) returns (r: Int64)
      requires Valid()
      ensures r == Snapshot().bytes[Ordinal(t)]
    {
      r := bytesForwarded[Ordinal(t)];
    }
  }
}
