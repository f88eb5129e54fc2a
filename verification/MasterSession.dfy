/**
 * Whole life of a master device file: any sequence of write and read calls, of any sizes, between
 * open and release. The ring, its wrapping and the chunking of the calls turn out to be unobservable.
 */
module MasterSession {
  import opened Bytes
  import opened Records
  import opened Etherbone
  import opened MasterEngine

  datatype Call = Send(data: seq<Byte>) | Receive(room: nat)

  /** What the file took from its user, and what it gave. */
  datatype Traffic = Traffic(taken: seq<Byte>, given: seq<Byte>)

  /** Flow control alone: a call moves as much as there is room for, or as has been answered. */
  function Serve(dev: Device, call: Call, t: Traffic): Traffic
    requires Sound(dev, t)
  {
    match call
    case Send(data) =>
      t.(taken := t.taken + data[..Min(|data|, RING_SIZE - (|t.taken| - |t.given|))])
    case Receive(room) =>
      var out := Master(dev, t.taken).out;
      t.(given := out[..|t.given| + Min(room, |out| - |t.given|)])
  }

  /** Everything given answers what was taken, and at most a ring full is in flight. */
  ghost predicate Sound(dev: Device, t: Traffic) {
    t.given <= Master(dev, t.taken).out && |t.given| <= |t.taken| <= |t.given| + RING_SIZE
  }

  lemma ServeKeepsSound(dev: Device, call: Call, t: Traffic)
    requires Sound(dev, t)
    ensures Sound(dev, Serve(dev, call, t))
    ensures t.taken <= Serve(dev, call, t).taken && t.given <= Serve(dev, call, t).given
  {
    hide Master;
    match call {
      case Send(data) =>
        MasterMonotone(dev, t.taken, data[..Min(|data|, RING_SIZE - (|t.taken| - |t.given|))]);
      case Receive(room) =>
        MasterLength(dev, t.taken);
    }
  }

  /** A script of calls from traffic `t` on. */
  ghost function Play(dev: Device, script: seq<Call>, t: Traffic): (t': Traffic)
    requires Sound(dev, t)
    ensures Sound(dev, t') && t.taken <= t'.taken && t.given <= t'.given
    decreases |script|
  {
    if script == [] then t
    else
      ServeKeepsSound(dev, script[0], t);
      Play(dev, script[1..], Serve(dev, script[0], t))
  }

  /** One call on the ring engine. */
  method Perform(context: MasterContext, call: Call, t: Traffic) returns (t': Traffic)
    requires context.Valid() && t == Traffic(context.accepted, context.delivered) && Sound(context.bus.dev, t)
    modifies context, context.buf, context.bus
    ensures context.Valid() && t' == Traffic(context.accepted, context.delivered)
    ensures t' == Serve(context.bus.dev, call, t)
  {
    hide Master, Holds, Spare;
    match call {
      case Send(data) =>
        var len := context.Write(data);
        t' := t.(taken := t.taken + data[..len]);
      case Receive(room) =>
        var bytes := context.Read(room);
        t' := t.(given := t.given + bytes);
        assert t'.given == Serve(context.bus.dev, call, t).given;
    }
  }

  /**
   * Opens a device file, performs the calls on the ring engine, and releases it. The bytes moved are
   * those of `Play`, and the bus saw exactly what the accepted byte stream means.
   */
  method Session(dev: Device, script: seq<Call>) returns (t: Traffic, trace: seq<Cmd>)
    ensures Sound(dev, Traffic([], [])) && t == Play(dev, script, Traffic([], []))
    ensures var line := Master(dev, t.taken).st;
            trace == line.bus + if line.open then [CycleOff] else []
  {
    hide Master, Holds, Spare, Serve;
    MasterLength(dev, []);
    var bus := new Bus(dev);
    var context := new MasterContext(bus);
    MasterShort(dev, []);
    t := Traffic([], []);
    var k := 0;
    while k < |script|
      invariant 0 <= k <= |script| && context.bus == bus && bus.dev == dev
      invariant fresh(context) && fresh(context.buf) && fresh(bus) && context.Valid()
      invariant t == Traffic(context.accepted, context.delivered) && Sound(dev, t)
      invariant Play(dev, script, Traffic([], [])) == Play(dev, script[k..], t)
    {
      assert script[k..][0] == script[k] && script[k..][1..] == script[k + 1..];
      ServeKeepsSound(dev, script[k], t);
      t := Perform(context, script[k], t);
      k := k + 1;
    }
    context.Release();
    trace := bus.trace;
  }

  // ---------------------------------------------------------------- what a user can rely on

  /**
   * A write takes as much of what is offered as fits: all of it, or until 8192 bytes are in flight. A read gives the
   * next answered bytes, as many as there is room for or all there are.
   */
  lemma CallsMoveAll(dev: Device, data: seq<Byte>, room: nat, t: Traffic)
    requires Sound(dev, t)
    ensures
      var sent := Serve(dev, Send(data), t);
      var n := |sent.taken| - |t.taken|;
      && sent.given == t.given && 0 <= n <= |data| && sent.taken == t.taken + data[..n]
      && |sent.taken| - |sent.given| <= 8192 && (n < |data| ==> |sent.taken| - |sent.given| == 8192)
    ensures
      var got, out := Serve(dev, Receive(room), t), Master(dev, t.taken).out;
      && got.taken == t.taken && t.given <= got.given <= out && |got.given| - |t.given| <= room
      && (|got.given| - |t.given| < room ==> got.given == out)
  {
    hide Master;
    MasterLength(dev, t.taken);
  }

  /** A reader that empties the file has received the complete answer to everything accepted. */
  lemma {:induction false} DrainedMeansAnswered(dev: Device, script: seq<Call>, t: Traffic)
    requires Sound(dev, t)
    ensures
      var t' := Play(dev, script, t);
      var drained := Play(dev, script + [Receive(RING_SIZE)], t);
      drained == Traffic(t'.taken, Master(dev, t'.taken).out)
    decreases |script|
  {
    hide Master;
    if script == [] {
      MasterLength(dev, t.taken);
      assert [Receive(RING_SIZE)][1..] == [];
      assert Play(dev, [], Serve(dev, Receive(RING_SIZE), t)) == Serve(dev, Receive(RING_SIZE), t);
    } else {
      ServeKeepsSound(dev, script[0], t);
      assert (script + [Receive(RING_SIZE)])[1..] == script[1..] + [Receive(RING_SIZE)];
      DrainedMeansAnswered(dev, script[1..], Serve(dev, script[0], t));
    }
  }

  /** Two ways to chunk the same input yield answers of which one extends the other. */
  lemma ChunkingUnobservable(dev: Device, script1: seq<Call>, script2: seq<Call>)
    requires Sound(dev, Traffic([], []))
    requires Play(dev, script1, Traffic([], [])).taken == Play(dev, script2, Traffic([], [])).taken
    ensures
      var g1, g2 := Play(dev, script1, Traffic([], [])).given, Play(dev, script2, Traffic([], [])).given;
      g1 <= g2 || g2 <= g1
  {
  }

  /** With all answers read, a write of at least a byte always moves, and never less than 6141 bytes if offered. */
  lemma NeverStalls(dev: Device, t: Traffic, data: seq<Byte>)
    requires Sound(dev, t) && t.given == Master(dev, t.taken).out
    ensures |t.taken| - |t.given| <= 2051
    ensures |Serve(dev, Send(data), t).taken| >= |t.taken| + Min(|data|, 6141)
  {
    hide Master;
    MasterTail(dev, t.taken);
    MasterLength(dev, t.taken);
  }

  /** The three lengths computed from the positions are exact and add up to the ring size. */
  lemma RingAccounting(c: MasterContext)
    requires c.Valid()
    ensures
      var toRead, toProcess, toWrite :=
        RingPos(c.processed - c.sent), RingPos(c.received - c.processed), RingPos(c.sent + RING_SIZE - c.received);
      && toRead == |Master(c.bus.dev, c.accepted).out| - |c.delivered|
      && toProcess == |c.accepted| - |Master(c.bus.dev, c.accepted).out| <= 2051
      && toRead + toProcess + toWrite == RING_SIZE
  {
    hide Master, Holds, Spare, Aligned, RingPos, RingIndex;
    PositionsAgree(c.handled, |c.delivered|);
    PositionsAgree(|c.stream|, c.handled);
    PositionsAgree(|c.stream|, |c.delivered|);
    MasterTail(c.bus.dev, c.accepted);
  }

  /** Word accesses at the processed position never straddle the ring end. */
  lemma ProcessedIsAligned(c: MasterContext)
    requires c.Valid()
    ensures c.processed % 4 == 0 && RingIndex(c.processed) + 4 <= RING_SIZE
  {
    hide Master, Holds, Spare, RingPos, RingIndex;
    AlignedMod(c.handled);
    RingPosIsModulo(c.handled);
    AlignedMod(c.processed);
    WordInRing(c.processed, 0);
  }

  // ---------------------------------------------------------------- the order of the stored positions

  lemma OrderKept(lo: nat, hi: nat)
    requires lo <= hi <= lo + RING_SIZE
    ensures RingPos(lo) <= RingPos(hi) <==> lo / RING_MOD == hi / RING_MOD
  {
    RingPosIsModulo(lo);
    RingPosIsModulo(hi);
  }

  /**
   * The counters are always ordered sent, processed, received; the stored positions are if and only if
   * no multiple of twice the ring size lies between what was delivered and what was accepted.
   */
  lemma StoredOrder(c: MasterContext)
    requires c.Valid()
    ensures |c.delivered| <= c.handled <= |c.accepted|
    ensures c.sent <= c.processed <= c.received <==> |c.delivered| / RING_MOD == |c.accepted| / RING_MOD
  {
    hide Master, Holds, Spare, RingPos, RingIndex, Aligned;
    OrderKept(|c.delivered|, c.handled);
    OrderKept(c.handled, |c.stream|);
  }

  lemma ZerosComplete(dev: Device, n: nat)
    requires n >= 8 && n % 4 == 0
    ensures |Master(dev, Zeros(n)).out| == n
  {
    hide Master;
    MasterTail(dev, Zeros(n));
    MasterLength(dev, Zeros(n));
  }

  /** The order does break: after two ring fulls, the first of them read back. */
  method OrderBreaks(dev: Device) returns (sent: nat, processed: nat, received: nat)
    ensures !(sent <= processed <= received)
  {
    hide Master, Holds, Spare;
    var bus := new Bus(dev);
    var context := new MasterContext(bus);
    MasterShort(dev, []);
    var full := Zeros(RING_SIZE);
    var len := context.Write(full);
    assert context.accepted == full;
    ZerosComplete(dev, RING_SIZE);
    var bytes := context.Read(RING_SIZE);
    len := context.Write(full);
    assert |context.accepted| == RING_MOD && |context.delivered| == RING_SIZE;
    StoredOrder(context);
    return context.sent, context.processed, context.received;
  }
}
