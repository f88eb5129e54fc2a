/**
 * Any sequence of registrations and removals: the list of bridges does what a plain table of numbers
 * does, in which every newcomer gets the least free one.
 */
module DeviceSession {
  import opened DeviceList

  /** Calls name a device by its index; `accepted` says whether the kernel takes it. */
  datatype Call = Join(id: nat, accepted: bool) | Leave(id: nat)

  /** For every device whether it is on the list, and the number it was given last. */
  datatype Desk = Desk(link: seq<Link>, minor: seq<nat>)
  {
    predicate Shape() {
      |link| == |minor|
    }
  }

  function Start(n: nat): (d: Desk)
    ensures d.Shape() && |d.link| == n
  {
    Desk(seq(n, _ => Alone), seq(n, _ => 0))
  }

  function TakenBy(d: Desk): set<nat>
    requires d.Shape()
  {
    set i | 0 <= i < |d.link| && d.link[i] == Listed :: d.minor[i]
  }

  /** The first free number from `k` on. */
  function NextFree(taken: set<nat>, k: nat, max: nat): (m: nat)
    requires k <= max
    ensures k <= m <= max && (m < max ==> m !in taken) && forall j | k <= j < m :: j in taken
    decreases max - k
  {
    if k == max || k !in taken then k else NextFree(taken, k + 1, max)
  }

  lemma LeastIsNext(taken: set<nat>, m: nat, max: nat)
    requires Least(taken, m) && !Full(taken, max)
    ensures m == NextFree(taken, 0, max) < max
  {
    var f := NextFree(taken, 0, max);
    assert f < max;
    if m < f {
      assert false;
    } else if f < m {
      assert false;
    }
  }

  /** What callers owe: a device joins only if it is not on the list, and leaves at most once. */
  predicate Allowed(call: Call, d: Desk)
    requires d.Shape()
  {
    call.id < |d.link| && if call.Join? then d.link[call.id] != Listed else d.link[call.id] != Poisoned
  }

  function Serve(call: Call, d: Desk, max: nat): (r: (Desk, Status))
    requires d.Shape() && Allowed(call, d)
    ensures r.0.Shape() && |r.0.link| == |d.link|
  {
    match call
    case Join(id, accepted) =>
      var m := NextFree(TakenBy(d), 0, max);
      if m == max then (d.(link := d.link[id := Alone]), OutOfMemory)
      else if accepted then (Desk(d.link[id := Listed], d.minor[id := m]), Success)
      else (Desk(d.link[id := Alone], d.minor[id := m]), OutOfMemory)
    case Leave(id) =>
      if d.link[id] == Alone then (d, Invalid) else (d.(link := d.link[id := Poisoned]), Success)
  }

  ghost predicate AllAllowed(script: seq<Call>, d: Desk, max: nat)
    requires d.Shape()
    decreases |script|
  {
    script != [] ==> Allowed(script[0], d) && AllAllowed(script[1..], Serve(script[0], d, max).0, max)
  }

  ghost function Play(script: seq<Call>, d: Desk, max: nat): (r: (Desk, seq<Status>))
    requires d.Shape() && AllAllowed(script, d, max)
    ensures r.0.Shape() && |r.1| == |script|
    decreases |script|
  {
    if script == [] then (d, [])
    else
      var (e, s) := Serve(script[0], d, max);
      var (f, ss) := Play(script[1..], e, max);
      (f, [s] + ss)
  }

  // ---------------------------------------------------------------- what every script keeps

  /** Devices on the list have different numbers, all within the limit. */
  ghost predicate Tidy(d: Desk, max: nat) {
    && d.Shape()
    && (forall i | 0 <= i < |d.link| && d.link[i] == Listed :: d.minor[i] < max)
    && forall i, j | 0 <= i < j < |d.link| && d.link[i] == Listed && d.link[j] == Listed :: d.minor[i] != d.minor[j]
  }

  lemma ServeKeepsTidy(call: Call, d: Desk, max: nat)
    requires Tidy(d, max) && Allowed(call, d)
    ensures Tidy(Serve(call, d, max).0, max)
  {
    if call.Join? {
      var m := NextFree(TakenBy(d), 0, max);
      forall i | 0 <= i < |d.link| && d.link[i] == Listed && m < max
        ensures d.minor[i] != m
      {
        assert d.minor[i] in TakenBy(d);
      }
    }
  }

  lemma {:induction false} PlayKeepsTidy(script: seq<Call>, d: Desk, max: nat)
    requires Tidy(d, max) && AllAllowed(script, d, max)
    ensures Tidy(Play(script, d, max).0, max)
    decreases |script|
  {
    hide Serve, Tidy;
    if script != [] {
      ServeKeepsTidy(script[0], d, max);
      TidyShape(d, max);
      PlayKeepsTidy(script[1..], Serve(script[0], d, max).0, max);
    }
  }

  lemma TidyShape(d: Desk, max: nat)
    requires Tidy(d, max)
    ensures d.Shape()
  {
  }

  /** A registration succeeds if and only if some number is free and the kernel accepts; then it gets the least. */
  lemma JoinGetsLeast(id: nat, accepted: bool, d: Desk, max: nat)
    requires d.Shape() && Allowed(Join(id, accepted), d)
    ensures
      var (e, status) := Serve(Join(id, accepted), d, max);
      && (status == Success <==> accepted && !Full(TakenBy(d), max))
      && (status == Success ==> e.link[id] == Listed && e.minor[id] < max && Least(TakenBy(d), e.minor[id]))
  {
    var m := NextFree(TakenBy(d), 0, max);
    if !Full(TakenBy(d), max) {
      var k :| 0 <= k < max && k !in TakenBy(d);
      assert m <= k;
    }
  }

  // ---------------------------------------------------------------- the list does the same

  /** The devices of `pool` are as the table says, and the list holds those it should. */
  ghost predicate Mirrors(reg: Registry, pool: seq<Wishbone>, d: Desk)
    reads reg, reg.devices, pool
  {
    && reg.Valid() && d.Shape() && |pool| == |d.link|
    && (forall i, j | 0 <= i < j < |pool| :: pool[i] != pool[j])
    && (forall i | 0 <= i < |pool| :: pool[i].link == d.link[i] && pool[i].minor == d.minor[i])
    && (forall i | 0 <= i < |pool| :: pool[i] in reg.devices <==> d.link[i] == Listed)
    && (forall w | w in reg.devices :: w in pool)
  }

  lemma SameTaken(reg: Registry, pool: seq<Wishbone>, d: Desk)
    requires Mirrors(reg, pool, d)
    ensures reg.Taken() == TakenBy(d)
  {
    forall w | w in reg.devices
      ensures w.minor in TakenBy(d)
    {
      var i :| 0 <= i < |pool| && pool[i] == w;
      assert d.minor[i] in TakenBy(d);
    }
    forall i | 0 <= i < |d.link| && d.link[i] == Listed
      ensures d.minor[i] in reg.Taken()
    {
      assert pool[i] in reg.devices && pool[i].minor == d.minor[i];
    }
  }

  /** An entry put into a list is in it, along with everything that was. */
  lemma InsertedMembers(devices: seq<Wishbone>, wb: Wishbone, pos: nat, now: seq<Wishbone>)
    requires pos <= |devices| && now == devices[..pos] + [wb] + devices[pos..]
    ensures forall w :: w in now <==> w in devices || w == wb
  {
    assert devices == devices[..pos] + devices[pos..];
  }

  method PerformJoin(reg: Registry, pool: seq<Wishbone>, id: nat, accepted: bool, ghost d: Desk)
    returns (status: Status)
    requires Mirrors(reg, pool, d) && Allowed(Join(id, accepted), d)
    modifies reg, pool
    ensures
      var (e, s) := Serve(Join(id, accepted), d, reg.maxDevices);
      status == s && Mirrors(reg, pool, e)
  {
    SameTaken(reg, pool, d);
    ghost var taken, max, before := TakenBy(d), reg.maxDevices, reg.devices;
    var wb := pool[id];
    hide TakenBy, Full, Least, Ordered, MinorsOf;
    status := reg.Register(wb, accepted);
    NextWhenFull(taken, max);
    if !Full(taken, max) {
      LeastIsNext(taken, wb.minor, max);
    }
    if status == Success {
      InsertedMembers(before, wb, wb.minor, reg.devices);
    }
    Joined(reg, pool, d, id, before, Serve(Join(id, accepted), d, max).0);
  }

  /** Only device `id` changed, and the list at most by it. */
  lemma Joined(reg: Registry, pool: seq<Wishbone>, d: Desk, id: nat, before: seq<Wishbone>, e: Desk)
    requires reg.Valid() && d.Shape() && |pool| == |d.link| && id < |pool| && d.link[id] != Listed
    requires e == Desk(d.link[id := pool[id].link], d.minor[id := pool[id].minor])
    requires forall i, j | 0 <= i < j < |pool| :: pool[i] != pool[j]
    requires forall i | 0 <= i < |pool| && i != id :: pool[i].link == d.link[i] && pool[i].minor == d.minor[i]
    requires forall i | 0 <= i < |pool| :: pool[i] in before <==> d.link[i] == Listed
    requires forall w | w in before :: w in pool
    requires forall w :: w in reg.devices <==> w in before || (pool[id].link == Listed && w == pool[id])
    ensures Mirrors(reg, pool, e)
  {
    hide Ordered;
  }

  lemma NextWhenFull(taken: set<nat>, max: nat)
    ensures Full(taken, max) <==> NextFree(taken, 0, max) == max
  {
  }

  method PerformLeave(reg: Registry, pool: seq<Wishbone>, id: nat, ghost d: Desk) returns (status: Status)
    requires Mirrors(reg, pool, d) && Allowed(Leave(id), d)
    modifies reg, pool
    ensures
      var (e, s) := Serve(Leave(id), d, reg.maxDevices);
      status == s && Mirrors(reg, pool, e)
  {
    hide TakenBy, Ordered, MinorsOf;
    status := reg.Unregister(pool[id]);
  }

  /** One call on the list. */
  method Perform(reg: Registry, pool: seq<Wishbone>, call: Call, ghost d: Desk) returns (status: Status)
    requires Mirrors(reg, pool, d) && Allowed(call, d)
    modifies reg, pool
    ensures
      var (e, s) := Serve(call, d, reg.maxDevices);
      status == s && Mirrors(reg, pool, e)
  {
    hide Mirrors, Serve;
    match call {
      case Join(id, accepted) => status := PerformJoin(reg, pool, id, accepted, d);
      case Leave(id) => status := PerformLeave(reg, pool, id, d);
    }
  }

  /** `n` new devices. */
  method NewDevices(n: nat) returns (pool: seq<Wishbone>)
    ensures |pool| == n && fresh(pool)
    ensures forall i, j | 0 <= i < j < |pool| :: pool[i] != pool[j]
    ensures forall i | 0 <= i < |pool| :: pool[i].link == Alone && pool[i].minor == 0
  {
    pool := [];
    while |pool| < n
      invariant |pool| <= n && fresh(pool)
      invariant forall i, j | 0 <= i < j < |pool| :: pool[i] != pool[j]
      invariant forall i | 0 <= i < |pool| :: pool[i].link == Alone && pool[i].minor == 0
    {
      var wb := new Wishbone();
      pool := pool + [wb];
    }
  }

  /**
   * Any allowed script on `n` devices and a list of `max` numbers: every call returns what the plain table
   * says, and in the end the list holds exactly the devices it should, with the numbers they should have.
   */
  method Session(max: nat, n: nat, script: seq<Call>) returns (statuses: seq<Status>, minors: seq<nat>)
    requires max >= 1 && AllAllowed(script, Start(n), max)
    ensures
      var (d, ss) := Play(script, Start(n), max);
      statuses == ss && minors == d.minor
  {
    hide Serve, Mirrors;
    var reg := new Registry(max);
    var pool := NewDevices(n);
    ghost var d := Start(n);
    NothingListed(reg, pool, n);
    statuses := [];
    var k := 0;
    assert script[0..] == script && [] + Play(script, d, max).1 == Play(script, d, max).1;
    while k < |script|
      invariant 0 <= k <= |script| && fresh(reg) && fresh(pool) && reg.maxDevices == max
      invariant d.Shape() && Mirrors(reg, pool, d) && AllAllowed(script[k..], d, max)
      invariant Play(script, Start(n), max)
             == (Play(script[k..], d, max).0, statuses + Play(script[k..], d, max).1)
    {
      assert script[k..][0] == script[k] && script[k..][1..] == script[k + 1..];
      var status := Perform(reg, pool, script[k], d);
      ghost var e := Serve(script[k], d, max).0;
      ConcatOne(statuses, status, Play(script[k + 1..], e, max).1);
      statuses := statuses + [status];
      d := e;
      k := k + 1;
    }
    assert script[k..] == [] && statuses + [] == statuses;
    minors := Numbers(reg, pool, d);
  }

  lemma ConcatOne<T>(a: seq<T>, x: T, b: seq<T>)
    ensures a + ([x] + b) == (a + [x]) + b
  {
  }

  lemma NothingListed(reg: Registry, pool: seq<Wishbone>, n: nat)
    requires reg.Valid() && reg.devices == [] && |pool| == n
    requires forall i, j | 0 <= i < j < |pool| :: pool[i] != pool[j]
    requires forall i | 0 <= i < |pool| :: pool[i].link == Alone && pool[i].minor == 0
    ensures Mirrors(reg, pool, Start(n))
  {
  }

  /** The numbers as the devices have them. */
  method Numbers(reg: Registry, pool: seq<Wishbone>, ghost d: Desk) returns (minors: seq<nat>)
    requires Mirrors(reg, pool, d)
    ensures minors == d.minor
  {
    minors := [];
    while |minors| < |pool|
      invariant |minors| <= |pool| && minors == d.minor[..|minors|]
    {
      minors := minors + [pool[|minors|].minor];
    }
  }
}
