/**
 * Many master files on one device. Contexts interleave command by command; only raising the cycle
 * line takes the device mutex. Every run keeps the bus in exclusive blocks.
 */
module ExclusiveCycles {
  import opened Bytes
  import opened Records
  import opened Etherbone

  // ---------------------------------------------------------------- one context's commands

  /** The bus commands a byte stream means; they do not depend on the answers (`BusIgnoresAnswers`). */
  ghost function Commands(input: seq<Byte>): seq<Cmd> {
    Master(_ => 0, input).st.bus
  }

  /** Whether the cycle line is up after a command history. */
  predicate Up(h: seq<Cmd>) {
    h != [] &&
    match h[|h| - 1]
    case CycleOn => true
    case CycleOff => false
    case _ => Up(h[..|h| - 1])
  }

  /** The cycle line is raised only when down, and everything else happens only while it is up. */
  predicate Proper(h: seq<Cmd>) {
    h == [] ||
    var before := h[..|h| - 1];
    Proper(before) && (h[|h| - 1] == CycleOn <==> !Up(before))
  }

  predicate Access(c: Cmd) {
    c != CycleOn && c != CycleOff
  }

  lemma ProperNothing()
    ensures Proper([])
  {
  }

  lemma ProperNext(h: seq<Cmd>, c: Cmd)
    requires Proper(h) && (c == CycleOn <==> !Up(h))
    ensures Proper(h + [c]) && Up(h + [c]) == (c != CycleOff)
  {
    assert (h + [c])[..|h|] == h;
  }

  lemma {:induction false} ProperAccesses(h: seq<Cmd>, w: seq<Cmd>)
    requires Proper(h) && Up(h) && forall c :: c in w ==> Access(c)
    ensures Proper(h + w) && Up(h + w)
    decreases |w|
  {
    if w == [] {
      assert h + [] == h;
    } else {
      hide Proper, Up;
      var front, last := w[..|w| - 1], w[|w| - 1];
      assert last in w;
      ProperAccesses(h, front);
      ProperNext(h + front, last);
      assert h + front + [last] == h + w;
    }
  }

  lemma {:induction false} WritesAccess(rec: seq<Byte>, k: nat)
    requires IsRecord(rec) && k <= rec[2]
    ensures forall c :: c in WritesUpTo(rec, k) ==> Access(c)
  {
    if k > 0 && !Flag(rec[0], WCA) {
      WritesAccess(rec, k - 1);
    }
  }

  lemma {:induction false} ReadsAccess(rec: seq<Byte>, k: nat)
    requires IsRecord(rec) && k <= rec[3]
    ensures forall c :: c in ReadsUpTo(rec, k) ==> Access(c)
  {
    if k > 0 {
      ReadsAccess(rec, k - 1);
    }
  }

  /** One record keeps a proper history proper and leaves the line up unless it asks to drop it. */
  lemma RecordProper(h: seq<Cmd>, rec: seq<Byte>)
    requires Proper(h) && IsRecord(rec)
    ensures var h' := h + RecordCmds(rec, Up(h)); Proper(h') && Up(h') == !Flag(rec[0], CYC)
  {
    hide Flag, WriteCmds, ReadCmds, Proper, Up;
    var h1 := if Up(h) then h else h + [CycleOn];
    if !Up(h) { ProperNext(h, CycleOn); }
    var w := [ByteEnable(rec[1])] + WriteCmds(rec) + ReadCmds(rec);
    CmdsAccess(rec);
    ProperAccesses(h1, w);
    if Flag(rec[0], CYC) { ProperNext(h1 + w, CycleOff); }
    assert h + RecordCmds(rec, Up(h)) == h1 + w + if Flag(rec[0], CYC) then [CycleOff] else [];
    assert h1 + w + [] == h1 + w;
  }

  lemma CmdsAccess(rec: seq<Byte>)
    requires IsRecord(rec)
    ensures forall c :: c in [ByteEnable(rec[1])] + WriteCmds(rec) + ReadCmds(rec) ==> Access(c)
  {
    hide WritesUpTo, ReadsUpTo;
    WritesAccess(rec, rec[2] as int);
    ReadsAccess(rec, rec[3] as int);
  }

  lemma {:induction false} RunProper(dev: Device, s: seq<Byte>, l: Line)
    requires Proper(l.bus) && Up(l.bus) == l.open
    ensures var l' := Run(dev, s, l).st; Proper(l'.bus) && Up(l'.bus) == l'.open
    decreases |s|
  {
    hide Proper, Up, RecordReply, RecordCmds, Flag;
    if Complete(s) {
      var rec := First(s);
      RecordProper(l.bus, rec);
      RunProper(dev, s[|rec|..], MasterStep(dev)(rec, l).1);
    }
  }

  /** What a byte stream means on the bus is always proper, and tells whether a cycle is left open. */
  lemma CommandsProper(dev: Device, input: seq<Byte>)
    ensures var l := Master(dev, input).st; Proper(l.bus) && Up(l.bus) == l.open && l.bus == Commands(input)
  {
    hide Run;
    if |input| >= 8 {
      RunProper(dev, input[8..], Line(false, []));
      BusIgnoresAnswers(dev, _ => 0, input[8..], Line(false, []));
    }
  }

  lemma {:induction false} ProperPrefix(h: seq<Cmd>, n: nat)
    requires Proper(h) && n <= |h|
    ensures Proper(h[..n])
    decreases |h|
  {
    if n == |h| {
      assert h[..n] == h;
    } else {
      ProperPrefix(h[..|h| - 1], n);
      assert h[..|h| - 1][..n] == h[..n];
    }
  }

  // ---------------------------------------------------------------- the shared device

  /** `issued` is the part of the context's commands already on the bus. */
  datatype Context = Context(accepted: seq<Byte>, issued: seq<Cmd>, released: bool)

  datatype Holder = Nobody | By(id: nat)

  datatype Event = Event(id: nat, cmd: Cmd)

  datatype System = System(contexts: map<nat, Context>, mutex: Holder, trace: seq<Event>)

  datatype Step =
    | Open(id: nat)
    | Submit(id: nat, chunk: seq<Byte>)   // a write call was accepted; its processing follows in Issue steps
    | Issue(id: nat)                      // the next command of a call in progress
    | Release(id: nat)

  /** No call of this context is in progress. */
  ghost predicate Quiet(c: Context) {
    c.issued == Commands(c.accepted)
  }

  /** `mutex_lock` before raising the line, `mutex_unlock` after dropping it. */
  predicate MayIssue(mutex: Holder, cmd: Cmd) {
    cmd == CycleOn ==> mutex == Nobody
  }

  function MutexAfter(mutex: Holder, id: nat, cmd: Cmd): Holder {
    if cmd == CycleOn then By(id) else if cmd == CycleOff then Nobody else mutex
  }

  ghost predicate Next(s: System, step: Step, s': System) {
    match step
    case Open(id) =>
      id !in s.contexts && s' == s.(contexts := s.contexts[id := Context([], [], false)])
    case Submit(id, chunk) =>
      && id in s.contexts && !s.contexts[id].released && Quiet(s.contexts[id])
      && s' == s.(contexts := s.contexts[id := s.contexts[id].(accepted := s.contexts[id].accepted + chunk)])
    case Issue(id) =>
      && id in s.contexts && !s.contexts[id].released
      && var c := s.contexts[id];
         && c.issued < Commands(c.accepted)
         && Emits(s, id, Commands(c.accepted)[|c.issued|], false, s')
    case Release(id) =>
      && id in s.contexts && !s.contexts[id].released && Quiet(s.contexts[id])
      && var c := s.contexts[id];
         if Up(c.issued) then Emits(s, id, CycleOff, true, s')
         else s' == s.(contexts := s.contexts[id := c.(released := true)])
  }

  /** One command of context `id` reaches the device. */
  ghost predicate Emits(s: System, id: nat, cmd: Cmd, last: bool, s': System)
    requires id in s.contexts
  {
    var c := s.contexts[id];
    && MayIssue(s.mutex, cmd)
    && s' == System(s.contexts[id := Context(c.accepted, c.issued + [cmd], last)],
                    MutexAfter(s.mutex, id, cmd), s.trace + [Event(id, cmd)])
  }

  ghost predicate Behaviour(states: seq<System>, steps: seq<Step>) {
    && |states| == |steps| + 1
    && states[0] == System(map[], Nobody, [])
    && forall k :: 0 <= k < |steps| ==> Next(states[k], steps[k], states[k + 1])
  }

  // ---------------------------------------------------------------- invariant

  /** The commands of one context, in the order the device saw them. */
  function Project(trace: seq<Event>, id: nat): seq<Cmd> {
    if trace == [] then []
    else
      var last := trace[|trace| - 1];
      Project(trace[..|trace| - 1], id) + if last.id == id then [last.cmd] else []
  }

  /** Everything a released context put on the bus: its commands, and the cycle closed if left open. */
  ghost function Closed(accepted: seq<Byte>): seq<Cmd> {
    Commands(accepted) + if Up(Commands(accepted)) then [CycleOff] else []
  }

  ghost predicate ContextInv(c: Context) {
    && Proper(c.issued)
    && if c.released then c.issued == Closed(c.accepted) && !Up(c.issued) else c.issued <= Commands(c.accepted)
  }

  /** A block of context `id` opened at `j` and is still open at the end of the trace. */
  ghost predicate OpenSince(trace: seq<Event>, id: nat, j: nat) {
    && j < |trace| && trace[j] == Event(id, CycleOn)
    && forall k :: j < k < |trace| ==> trace[k].id == id && Access(trace[k].cmd)
  }

  /** The device mutex is what the trace says: held by whoever opened the last block. */
  ghost predicate MutexInv(mutex: Holder, trace: seq<Event>) {
    match mutex
    case Nobody => trace == [] || trace[|trace| - 1].cmd == CycleOff
    case By(id) => exists j :: OpenSince(trace, id, j)
  }

  /**
   * The line is raised only outside blocks; any other event belongs to a block raised earlier by the
   * same context, with nothing but that context's accesses in between.
   */
  ghost predicate Placed(before: seq<Event>, e: Event) {
    if e.cmd == CycleOn then before == [] || before[|before| - 1].cmd == CycleOff
    else exists j :: OpenSince(before, e.id, j)
  }

  ghost predicate Exclusive(trace: seq<Event>) {
    forall i {:trigger trace[i]} :: 0 <= i < |trace| ==> Placed(trace[..i], trace[i])
  }

  ghost predicate Inv(s: System) {
    && (forall id :: id in s.contexts ==> ContextInv(s.contexts[id]))
    && (forall id :: id in s.contexts ==> Project(s.trace, id) == s.contexts[id].issued)
    && (forall id :: id !in s.contexts ==> Project(s.trace, id) == [])
    && (forall id :: s.mutex == By(id) <==> id in s.contexts && Up(s.contexts[id].issued))
    && MutexInv(s.mutex, s.trace)
    && Exclusive(s.trace)
  }

  // ---------------------------------------------------------------- every step keeps the invariant

  lemma ProjectEvent(trace: seq<Event>, e: Event, id: nat)
    ensures Project(trace + [e], id) == Project(trace, id) + if e.id == id then [e.cmd] else []
  {
    assert (trace + [e])[..|trace|] == trace;
  }

  /** The next command of a proper history raises the line exactly when it is down. */
  lemma NextIsProper(input: seq<Byte>, n: nat)
    requires n < |Commands(input)|
    ensures
      var h := Commands(input);
      Proper(h[..n]) && Proper(h[..n] + [h[n]]) && (h[n] == CycleOn <==> !Up(h[..n]))
  {
    hide Commands;
    CommandsProper(_ => 0, input);
    var h := Commands(input);
    ProperPrefix(h, n);
    ProperPrefix(h, n + 1);
    assert h[..n + 1] == h[..n] + [h[n]];
    assert h[..n + 1][..n] == h[..n];
  }

  lemma ExclusiveExtends(trace: seq<Event>, e: Event)
    requires Exclusive(trace) && Placed(trace, e)
    ensures Exclusive(trace + [e])
  {
    hide Placed;
    var t := trace + [e];
    forall i | 0 <= i < |t|
      ensures Placed(t[..i], t[i])
    {
      if i == |trace| {
        assert t[..i] == trace;
      } else {
        assert t[..i] == trace[..i] && t[i] == trace[i];
      }
    }
  }

  /** An emitted command extends the open block, opens one, or closes it. */
  lemma EmitKeepsTrace(mutex: Holder, trace: seq<Event>, id: nat, cmd: Cmd)
    requires MutexInv(mutex, trace) && Exclusive(trace) && MayIssue(mutex, cmd)
    requires cmd == CycleOn <==> mutex != By(id)
    ensures MutexInv(MutexAfter(mutex, id, cmd), trace + [Event(id, cmd)])
    ensures Exclusive(trace + [Event(id, cmd)])
  {
    hide Exclusive;
    var t := trace + [Event(id, cmd)];
    if cmd == CycleOn {
      assert OpenSince(t, id, |trace|);
    } else if Access(cmd) {
      var j :| OpenSince(trace, id, j);
      assert OpenSince(t, id, j);
    }
    ExclusiveExtends(trace, Event(id, cmd));
  }

  lemma EmitKeepsInv(s: System, id: nat, cmd: Cmd, last: bool, s': System)
    requires Inv(s) && id in s.contexts && Emits(s, id, cmd, last, s')
    requires cmd == CycleOn <==> !Up(s.contexts[id].issued)
    requires ContextInv(s'.contexts[id])
    ensures Inv(s')
  {
    hide ContextInv, Exclusive, MutexInv, Project, Proper;
    EmitKeepsTrace(s.mutex, s.trace, id, cmd);
    var c := s.contexts[id];
    forall other
      ensures Project(s'.trace, other) == Project(s.trace, other) + if other == id then [cmd] else []
    {
      ProjectEvent(s.trace, Event(id, cmd), other);
    }
    assert (c.issued + [cmd])[..|c.issued|] == c.issued;
  }

  /** A context that appears, takes more input, or ends quietly changes nothing on the device. */
  lemma QuietKeepsInv(s: System, id: nat, c: Context, s': System)
    requires Inv(s) && s' == s.(contexts := s.contexts[id := c]) && ContextInv(c)
    requires c.issued == if id in s.contexts then s.contexts[id].issued else []
    ensures Inv(s')
  {
    hide ContextInv, Exclusive, MutexInv, Project, Proper;
  }

  lemma NewContextInv()
    ensures ContextInv(Context([], [], false))
  {
    hide Commands;
    ProperNothing();
  }

  lemma InvMeans(s: System, id: nat)
    requires Inv(s) && id in s.contexts
    ensures ContextInv(s.contexts[id])
  {
  }

  lemma MoreInputKeepsContext(c: Context, chunk: seq<Byte>)
    requires ContextInv(c) && !c.released
    ensures ContextInv(c.(accepted := c.accepted + chunk))
  {
    hide Commands, Proper;
    MoreInputMoreCommands(c.accepted, chunk);
    var h, h' := Commands(c.accepted), Commands(c.accepted + chunk);
    assert c.issued <= h <= h';
  }

  lemma IssueKeepsInv(s: System, id: nat, s': System)
    requires Inv(s) && Next(s, Issue(id), s')
    ensures Inv(s')
  {
    hide Commands, Proper, Exclusive, MutexInv, Project, Up;
    var c := s.contexts[id];
    var n := |c.issued|;
    assert ContextInv(c) && Commands(c.accepted)[..n] == c.issued;
    NextIsProper(c.accepted, n);
    assert c.issued + [Commands(c.accepted)[n]] <= Commands(c.accepted);
    EmitKeepsInv(s, id, Commands(c.accepted)[n], false, s');
  }

  lemma ReleaseKeepsInv(s: System, id: nat, s': System)
    requires Inv(s) && Next(s, Release(id), s')
    ensures Inv(s')
  {
    hide Commands, Proper, Exclusive, MutexInv, Project, Up;
    var c := s.contexts[id];
    assert ContextInv(c);
    if Up(c.issued) {
      ProperNext(c.issued, CycleOff);
      EmitKeepsInv(s, id, CycleOff, true, s');
    } else {
      assert c.issued + [] == c.issued;
      QuietKeepsInv(s, id, c.(released := true), s');
    }
  }

  lemma StepKeepsInv(s: System, step: Step, s': System)
    requires Inv(s) && Next(s, step, s')
    ensures Inv(s')
  {
    hide Commands, Proper, Exclusive, MutexInv, Project, Inv, Up;
    match step {
      case Open(id) =>
        NewContextInv();
        QuietKeepsInv(s, id, Context([], [], false), s');
      case Submit(id, chunk) =>
        var c := s.contexts[id];
        assert ContextInv(c) by { InvMeans(s, id); }
        MoreInputKeepsContext(c, chunk);
        QuietKeepsInv(s, id, c.(accepted := c.accepted + chunk), s');
      case Issue(id) => IssueKeepsInv(s, id, s');
      case Release(id) => ReleaseKeepsInv(s, id, s');
    }
  }

  lemma MoreInputMoreCommands(a: seq<Byte>, b: seq<Byte>)
    ensures Commands(a) <= Commands(a + b)
  {
    MasterMonotone(_ => 0, a, b);
  }

  lemma {:induction false} BehaviourKeepsInv(states: seq<System>, steps: seq<Step>, k: nat)
    requires Behaviour(states, steps) && k < |states|
    ensures Inv(states[k])
  {
    if k > 0 {
      BehaviourKeepsInv(states, steps, k - 1);
      StepKeepsInv(states[k - 1], steps[k - 1], states[k]);
    }
  }

  // ---------------------------------------------------------------- what holds in every run

  /**
   * In every state of every run: two contexts are never both in a cycle, and whoever is holds the
   * mutex; the bus trace consists of exclusive blocks; and each context's share of it is exactly what
   * its own input means, completed by release.
   */
  lemma ExclusiveCycles(states: seq<System>, steps: seq<Step>, k: nat)
    requires Behaviour(states, steps) && k < |states|
    ensures
      var s := states[k];
      && (forall a, b {:trigger s.contexts[a], s.contexts[b]} ::
            a in s.contexts && b in s.contexts && Up(s.contexts[a].issued) && Up(s.contexts[b].issued) ==> a == b)
      && (forall a :: a in s.contexts ==> (Up(s.contexts[a].issued) <==> s.mutex == By(a)))
      && Exclusive(s.trace)
      && forall a :: a in s.contexts ==>
           var c := s.contexts[a];
           if c.released then Project(s.trace, a) == Closed(c.accepted)
           else Project(s.trace, a) <= Commands(c.accepted)
  {
    hide Up, Exclusive, Project, Closed, Commands, MutexInv, Proper;
    BehaviourKeepsInv(states, steps, k);
    var s := states[k];
    forall a | a in s.contexts
      ensures Up(s.contexts[a].issued) <==> s.mutex == By(a)
    {
    }
  }

  /** A context never waits for a mutex it holds itself: only another context's open cycle can block it. */
  lemma NoSelfDeadlock(states: seq<System>, steps: seq<Step>, k: nat, id: nat)
    requires Behaviour(states, steps) && k < |states| && id in states[k].contexts
    requires var c := states[k].contexts[id]; !c.released && c.issued < Commands(c.accepted)
    ensures
      var s := states[k];
      var cmd := Commands(s.contexts[id].accepted)[|s.contexts[id].issued|];
      !MayIssue(s.mutex, cmd) ==> exists other :: other != id && other in s.contexts && s.mutex == By(other)
  {
    hide Commands, Proper, Exclusive, MutexInv, Project;
    BehaviourKeepsInv(states, steps, k);
    var s := states[k];
    var c := s.contexts[id];
    NextIsProper(c.accepted, |c.issued|);
    assert Commands(c.accepted)[..|c.issued|] == c.issued;
    if s.mutex.By? {
      assert s.mutex == By(s.mutex.id);
    }
  }

  /** After release a context holds nothing, so closing the last open file always frees the device. */
  lemma ReleaseFreesDevice(states: seq<System>, steps: seq<Step>, k: nat)
    requires Behaviour(states, steps) && k < |states|
    requires forall id :: id in states[k].contexts ==> states[k].contexts[id].released
    ensures states[k].mutex == Nobody
  {
    hide Commands, Proper, Exclusive, MutexInv, Project;
    BehaviourKeepsInv(states, steps, k);
    var s := states[k];
    forall id
      ensures s.mutex != By(id)
    {
      assert id in s.contexts ==> ContextInv(s.contexts[id]);
    }
    match s.mutex {
      case Nobody =>
      case By(id) =>
    }
  }
}
