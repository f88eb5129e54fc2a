/**
 * Whole life of a slave device file: the hardware raises requests at any time while the user reads,
 * polls and writes in any order and sizes, until the file is released. The buffered engine does what
 * the pure meaning of the script says; everything else is proved of that meaning.
 */
module SlaveSession {
  import opened Bytes
  import opened Records
  import opened SlaveEngine
  import opened SlaveFile
  import opened SlaveSpec

  /** One call on an open file. */
  method Perform(context: SlaveContext, call: Call) returns (o: Outcome)
    requires context.Valid()
    modifies context, context.rbuf, context.wbuf, context.hw
    ensures |old(context.delivered)| <= |Owed(old(context.View()))|
    ensures context.Valid() && (context.View(), o) == Serve(call, old(context.View()))
  {
    hide EncodeAll, InputInv, Feed, TakeNext;
    context.NothingLeft();
    match call {
      case Raise(q) =>
        context.hw.Raise(q);
        o := Raised;
      case ReadUpTo(room) =>
        var bytes := context.Read(room);
        o := Got(bytes);
      case Poll =>
        var readable := context.Poll();
        o := Readable(readable);
      case WriteBytes(bytes) =>
        var ret := context.Write(bytes);
        o := Wrote(ret);
    }
  }

  /**
   * Opens the file, performs the calls on the buffered engine, and releases it: every call returns what
   * `Play` says, the hardware sees those requests taken and those replies, and the engine is handed
   * those records.
   */
  method Session(garbage: Word, script: seq<Call>)
    returns (outcomes: seq<Outcome>, taken: seq<Request>, replies: seq<Reply>, ret: int, ghost handled: seq<seq<Byte>>)
    ensures
      var (f, os) := Play(script, Start(garbage));
      && outcomes == os && taken == f.taken && replies == AfterRelease(f) && handled == f.input.handled
      && ret == if f.input.regs.pending == 0 then 0 else -5
  {
    hide Serve, Sound, InputInv, EncodeAll;
    var hw := new Hardware();
    var context := new SlaveContext(hw, garbage);
    outcomes := [];
    var k := 0;
    assert context.View() == Start(garbage);
    NoCallsYet(script, Start(garbage));
    while k < |script|
      invariant 0 <= k <= |script| && context.hw == hw
      invariant fresh(hw) && fresh(context) && fresh(context.rbuf) && fresh(context.wbuf)
      invariant context.Valid() && Sound(context.View())
      invariant Continues(script, Start(garbage), k, context.View(), outcomes)
    {
      ghost var f := context.View();
      var o := Perform(context, script[k]);
      OneMoreCall(script, Start(garbage), k, f, outcomes);
      outcomes := outcomes + [o];
      k := k + 1;
    }
    AllCalls(script, Start(garbage), k, context.View(), outcomes);
    ghost var f := context.View();
    taken, handled := hw.taken, context.handled;
    ret := context.Release();
    replies := hw.replies;
  }

  /** After `k` calls the file is `g`, with these outcomes so far. */
  ghost predicate Continues(script: seq<Call>, f: File, k: nat, g: File, outcomes: seq<Outcome>)
    requires k <= |script| && Sound(f) && Sound(g)
  {
    Play(script, f) == (Play(script[k..], g).0, outcomes + Play(script[k..], g).1)
  }

  lemma NoCallsYet(script: seq<Call>, f: File)
    requires Sound(f)
    ensures Continues(script, f, 0, f, [])
  {
    assert script[0..] == script && [] + Play(script, f).1 == Play(script, f).1;
  }

  lemma OneMoreCall(script: seq<Call>, f: File, k: nat, g: File, outcomes: seq<Outcome>)
    requires k < |script| && Sound(f) && Sound(g) && Continues(script, f, k, g, outcomes)
    ensures var (h, o) := Serve(script[k], g); Sound(h) && Continues(script, f, k + 1, h, outcomes + [o])
  {
    hide Serve;
    ServeKeepsSound(script[k], g);
    var (h, o) := Serve(script[k], g);
    assert script[k..][0] == script[k] && script[k..][1..] == script[k + 1..];
    ConcatAssociative(outcomes, [o], Play(script[k + 1..], h).1);
  }

  lemma AllCalls(script: seq<Call>, f: File, k: nat, g: File, outcomes: seq<Outcome>)
    requires k == |script| && Sound(f) && Sound(g) && Continues(script, f, k, g, outcomes)
    ensures Play(script, f) == (g, outcomes)
  {
    assert script[k..] == [] && outcomes + [] == outcomes;
  }

  // ---------------------------------------------------------------- requests and replies

  /**
   * No reply without a request taken, in every state; and after release every request taken has been
   * replied to exactly once if and only if fewer than 2^31 were outstanding.
   */
  lemma RepliesComplete(script: seq<Call>, garbage: Word)
    ensures
      var f := Play(script, Start(garbage)).0;
      && |f.input.regs.replies| <= |f.taken| && f.input.regs.replies <= AfterRelease(f)
      && |AfterRelease(f)| <= |f.taken|
      && (|AfterRelease(f)| == |f.taken| <==> |f.taken| - |f.input.regs.replies| < 0x8000_0000)
  {
    var f := Play(script, Start(garbage)).0;
    ReleaseAnswersAll(|f.taken|, |f.input.regs.replies|, f.input.regs.pending);
  }

  /** The count is kept modulo 2^32 and then read as a signed integer. */
  lemma ReleaseAnswersAll(taken: nat, replied: nat, pendingErr: Word)
    requires replied <= taken && pendingErr == (taken - replied) % UINT
    ensures replied + |Apologies(Signed(pendingErr))| == taken <==> taken - replied < 0x8000_0000
    ensures replied + |Apologies(Signed(pendingErr))| <= taken
  {
  }

  /** Negotiates, reads the probe, then raises and reads `n` requests without ever answering. */
  function Flood(q: Request, n: nat): seq<Call> {
    if n == 0 then [WriteBytes([0x4E, 0x6F, 0x16, 0x44, 0]), ReadUpTo(8)]
    else Flood(q, n - 1) + [Raise(q), ReadUpTo(24)]
  }

  lemma {:induction false} FloodTakes(q: Request, n: nat, garbage: Word)
    ensures
      var f := Play(Flood(q, n), Start(garbage)).0;
      && f.input.negotiated && f.input.regs == Regs(n % UINT, garbage, [])
      && f.queue == [] && |f.taken| == n && f.given == Owed(f)
  {
    hide EncodeAll;
    if n == 0 {
      Opens(garbage);
    } else {
      FloodTakes(q, n - 1, garbage);
      PlayAppend(Flood(q, n - 1), [Raise(q), ReadUpTo(24)], Start(garbage));
      OneMoreFlooded(q, Play(Flood(q, n - 1), Start(garbage)).0);
      OneMoreTaken(n - 1, 0);
    }
  }

  lemma Opens(garbage: Word)
    ensures
      var f := Play([WriteBytes([0x4E, 0x6F, 0x16, 0x44, 0]), ReadUpTo(8)], Start(garbage)).0;
      && f.input.negotiated && f.input.regs == Regs(0, garbage, [])
      && f.queue == [] && f.taken == [] && f.given == Owed(f)
  {
    var answer := [0x4E, 0x6F, 0x16, 0x44];
    var f0 := Start(garbage);
    Negotiation(f0.input, answer, [0]);
    assert answer + [0] == [0x4E, 0x6F, 0x16, 0x44, 0];
    FeedOne(f0.input.(negotiated := true), 0);
    PlayTwo(WriteBytes([0x4E, 0x6F, 0x16, 0x44, 0]), ReadUpTo(8), f0);
  }

  lemma PlayTwo(a: Call, b: Call, f: File)
    requires Sound(f)
    ensures Sound(Serve(a, f).0) && Play([a, b], f).0 == Serve(b, Serve(a, f).0).0
  {
    hide Serve;
    ServeKeepsSound(a, f);
    var (g, o) := Serve(a, f);
    ServeKeepsSound(b, g);
    assert [a, b][1..] == [b] && [b][1..] == [];
    assert Play([b], g).0 == Play([], Serve(b, g).0).0;
  }

  lemma OneMoreFlooded(q: Request, f: File)
    requires Sound(f) && f.input.negotiated && f.queue == [] && f.given == Owed(f)
    ensures
      var g := Play([Raise(q), ReadUpTo(24)], f).0;
      && g.input == f.input.(regs := f.input.regs.(pending := (f.input.regs.pending as int + 1) % UINT))
      && g.queue == [] && g.taken == f.taken + [q] && g.given == Owed(g)
  {
    hide EncodeAll, Play, Sound;
    var f1 := f.(queue := [q]);
    assert f.queue + [q] == [q];
    PlayTwo(Raise(q), ReadUpTo(24), f);
    RaisedAndRead(q, f1);
  }

  lemma RaisedAndRead(q: Request, f: File)
    requires Sound(f) && f.input.negotiated && f.queue == [q] && f.given == Owed(f)
    ensures
      var g := Serve(ReadUpTo(24), f).0;
      && g.input == f.input.(regs := f.input.regs.(pending := (f.input.regs.pending as int + 1) % UINT))
      && g.queue == [] && g.taken == f.taken + [q] && g.given == Owed(g)
  {
    hide EncodeAll, Owed, Sound;
    OneRead(f);
  }

  /**
   * The failing family is reached: with 2^31 requests taken and none answered, release answers none of
   * them.
   */
  lemma ReleaseMisses(q: Request, n: nat, garbage: Word)
    requires n == 0x8000_0000
    ensures var f := Play(Flood(q, n), Start(garbage)).0; |f.taken| == n && AfterRelease(f) == []
  {
    FloodTakes(q, n, garbage);
  }

  // ---------------------------------------------------------------- what a user can rely on

  function Reads(n: nat): seq<Call> {
    if n == 0 then [] else [ReadUpTo(24)] + Reads(n - 1)
  }

  /** Once negotiated, a reader that reads on gets every request raised, in order, exactly once. */
  lemma {:induction false} ReaderGetsAll(f: File, n: nat)
    requires Sound(f) && f.input.negotiated && n >= |f.queue| + if f.given == Owed(f) then 0 else 1
    ensures
      var g := Play(Reads(n), f).0;
      g.queue == [] && g.taken == f.taken + f.queue && g.given == PROBE + EncodeAll(f.taken + f.queue)
    decreases n
  {
    hide EncodeAll;
    if f.queue == [] && f.given == Owed(f) {
      assert f.taken + [] == f.taken;
      Finished(f, n);
    } else {
      OneRead(f);
      var g := Serve(ReadUpTo(24), f).0;
      hide Serve, Sound;
      assert Reads(n)[1..] == Reads(n - 1);
      ReaderGetsAll(g, n - 1);
    }
  }

  /** A read of 24 bytes takes what is left of one encoding, or the next request as a whole. */
  lemma OneRead(f: File)
    requires Sound(f) && f.input.negotiated
    ensures
      var g := Serve(ReadUpTo(24), f).0;
      && Sound(g) && g.input.negotiated && g.given == Owed(g) && g.taken + g.queue == f.taken + f.queue
      && |g.queue| == |f.queue| - if f.given == Owed(f) && f.queue != [] then 1 else 0
  {
    hide EncodeAll;
    ServeKeepsSound(ReadUpTo(24), f);
    TakeKeepsSound(f);
    var t := TakeNext(f);
    assert t.given + Owed(t)[|t.given|..] == Owed(t);
    if t != f {
      assert f.taken + [f.queue[0]] + f.queue[1..] == f.taken + f.queue;
    }
  }

  /** With nothing waiting and nothing owed, reading changes nothing. */
  lemma {:induction false} Finished(f: File, n: nat)
    requires Sound(f) && f.queue == [] && f.given == Owed(f)
    ensures Play(Reads(n), f).0 == f
  {
    if n > 0 {
      NothingToRead(f);
      hide Serve, Sound, Owed;
      assert Reads(n)[1..] == Reads(n - 1);
      Finished(f, n - 1);
    }
  }

  lemma NothingToRead(f: File)
    requires Sound(f) && f.queue == [] && f.given == Owed(f)
    ensures Serve(ReadUpTo(24), f).0 == f
  {
    hide EncodeAll;
    assert f.given + [] == f.given;
  }

  /** No write was refused. */
  predicate AllAccepted(outcomes: seq<Outcome>) {
    forall o :: o in outcomes ==> o != Wrote(-5)
  }

  lemma {:induction false} PlayFrames(script: seq<Call>, f: File, written: seq<Byte>)
    requires Sound(f) && Framed(f.input, written) && AllAccepted(Play(script, f).1)
    ensures Framed(Play(script, f).0.input, written + WrittenBy(script))
    decreases |script|
  {
    hide Framed, Feed, EncodeAll;
    if script == [] {
      assert written + [] == written;
    } else {
      ServeKeepsSound(script[0], f);
      var (g, o) := Serve(script[0], f);
      var (h, os) := Play(script[1..], g);
      assert Play(script, f).1 == [o] + os;
      assert o in [o] + os && forall p :: p in os ==> p in [o] + os;
      var more := if script[0].WriteBytes? then script[0].bytes else [];
      if script[0].WriteBytes? {
        FeedFrames(f.input, written, more);
      } else {
        assert written + [] == written;
        FramedWithoutRegisters(f.input, g.input, written);
      }
      PlayFrames(script[1..], g, written + more);
      ConcatAssociative(written, more, WrittenBy(script[1..]));
    }
  }

  lemma FramedWithoutRegisters(i: Input, j: Input, written: seq<Byte>)
    requires Framed(i, written) && j == i.(regs := j.regs)
    ensures Framed(j, written)
  {
  }

  lemma ScriptFrames(script: seq<Call>, garbage: Word)
    requires AllAccepted(Play(script, Start(garbage)).1)
    ensures Framed(Play(script, Start(garbage)).0.input, WrittenBy(script))
  {
    PlayFrames(script, Start(garbage), []);
    assert [] + WrittenBy(script) == WrittenBy(script);
  }

  /**
   * The records handed over depend on the bytes written alone: not on the chunks, not on what was raised,
   * read or polled in between, and not on the registers.
   */
  lemma SameBytesSameRecords(script1: seq<Call>, script2: seq<Call>, garbage1: Word, garbage2: Word)
    requires WrittenBy(script1) == WrittenBy(script2)
    requires AllAccepted(Play(script1, Start(garbage1)).1) && AllAccepted(Play(script2, Start(garbage2)).1)
    ensures
      var i, j := Play(script1, Start(garbage1)).0.input, Play(script2, Start(garbage2)).0.input;
      i.negotiated == j.negotiated && i.fill == j.fill && i.handled == j.handled
  {
    ScriptFrames(script1, garbage1);
    ScriptFrames(script2, garbage2);
    FramedUnique(Play(script1, Start(garbage1)).0.input, Play(script2, Start(garbage2)).0.input, WrittenBy(script1));
  }

  /** No request is taken before an acceptable probe answer and a further byte were written. */
  lemma TakenAfterProbe(script: seq<Call>, garbage: Word)
    requires AllAccepted(Play(script, Start(garbage)).1)
    requires Play(script, Start(garbage)).0.taken != []
    ensures |WrittenBy(script)| > 4 && AcceptableProbe(WrittenBy(script)[..4])
  {
    ScriptFrames(script, garbage);
    NegotiatedAfterFour(Play(script, Start(garbage)).0.input, WrittenBy(script));
  }
}
