/**
 * What the calls on an open slave device file mean, without any buffer: the hardware raises requests,
 * the user reads their encodings and writes the answers. `Play` is the meaning of a whole script.
 */
module SlaveFile {
  import opened Bytes
  import opened Records
  import opened Etherbone
  import opened SlaveSpec

  // ---------------------------------------------------------------- requests as records

  datatype Request = Request(write: bool, addr: Word, data: Word, mask: Byte)

  const PROBE: seq<Byte> := [0x4E, 0x6F, 0x11, 0x44, 0, 0, 0, 0]

  /** The record every request ends with: read the error register back. */
  const ERROR_RECORD: seq<Byte> := [0xC8, 0xf, 0, 1, 0, 0, 0x80, 0x04, 0, 0, 0, 4]

  /** The record that performs the request on the master's bus. */
  function RequestRecord(q: Request): (b: seq<Byte>)
    ensures |b| == 12 && IsRecord(b)
  {
    if q.write then [0x80, q.mask, 1, 0] + WordBytes(q.addr) + WordBytes(q.data)
    else [0x80, q.mask, 0, 1] + [0, 0, 0x80, 0] + WordBytes(q.addr)
  }

  function Encode(q: Request): (b: seq<Byte>)
    ensures |b| == 24
  {
    RequestRecord(q) + ERROR_RECORD
  }

  function EncodeAll(qs: seq<Request>): (b: seq<Byte>)
    ensures |b| == 24 * |qs|
  {
    if qs == [] then [] else EncodeAll(qs[..|qs| - 1]) + Encode(qs[|qs| - 1])
  }

  lemma EncodeNext(qs: seq<Request>, q: Request)
    ensures PROBE + EncodeAll(qs + [q]) == PROBE + EncodeAll(qs) + Encode(q)
  {
    assert (qs + [q])[..|qs|] == qs;
  }

  // ---------------------------------------------------------------- calls

  datatype Call =
    | Raise(q: Request)       // the hardware
    | ReadUpTo(room: nat)     // the user
    | Poll
    | WriteBytes(bytes: seq<Byte>)

  /** What a call returns to its caller; -5 is `-EIO`. */
  datatype Outcome = Raised | Got(bytes: seq<Byte>) | Readable(yes: bool) | Wrote(ret: int)

  /** Input side, waiting requests, requests taken, and bytes read out. */
  datatype File = File(input: Input, queue: seq<Request>, taken: seq<Request>, given: seq<Byte>)

  /** Everything a reader is ever to get for the requests taken so far. */
  function Owed(f: File): (b: seq<Byte>)
    ensures |b| == 8 + 24 * |f.taken|
  {
    PROBE + EncodeAll(f.taken)
  }

  /** A request is taken when the reader has everything before it, negotiation is done, and one waits. */
  function TakeNext(f: File): File {
    if f.given != Owed(f) || !f.input.negotiated || f.queue == [] then f
    else
      var regs := f.input.regs;
      f.(input := f.input.(regs := regs.(pending := (regs.pending as int + 1) % UINT)),
         queue := f.queue[1..], taken := f.taken + [f.queue[0]])
  }

  function Serve(call: Call, f: File): (File, Outcome)
    requires |f.given| <= |Owed(f)|
  {
    match call
    case Raise(q) => (f.(queue := f.queue + [q]), Raised)
    case ReadUpTo(room) =>
      if room == 0 then (f, Got([]))
      else
        var t := TakeNext(f);
        var bytes := Owed(t)[|t.given|..|t.given| + Min(room, |Owed(t)| - |t.given|)];
        (t.(given := t.given + bytes), Got(bytes))
    case Poll => var t := TakeNext(f); (t, Readable(t.given != Owed(t)))
    case WriteBytes(bytes) =>
      var v := Feed(f.input, bytes);
      (f.(input := v.st), Wrote(if v.ok then |bytes| else -5))
  }

  /**
   * What was read is a prefix of what is owed, at most one encoding behind; every request taken is
   * either replied to or counted as pending, modulo 2^32; nothing is taken before negotiation.
   */
  ghost predicate Sound(f: File) {
    && f.given <= Owed(f) && |Owed(f)| - |f.given| <= 24
    && |f.input.regs.replies| <= |f.taken|
    && f.input.regs.pending == (|f.taken| - |f.input.regs.replies|) % UINT
    && (!f.input.negotiated ==> f.taken == [])
  }

  /** `char_slave_open`; `garbage` is what the allocator left in `data`. */
  ghost function Start(garbage: Word): (f: File)
    ensures Sound(f)
  {
    File(Input(false, [], Regs(0, garbage, []), []), [], [], [])
  }

  lemma OneMoreTaken(taken: nat, replied: nat)
    requires replied <= taken
    ensures (taken + 1 - replied) % UINT == ((taken - replied) % UINT + 1) % UINT
  {
  }

  lemma SomeReplied(taken: nat, replied: nat, n: nat)
    requires replied <= taken && n <= (taken - replied) % UINT
    ensures replied + n <= taken && (taken - replied - n) % UINT == (taken - replied) % UINT - n
  {
  }

  lemma TakeKeepsSound(f: File)
    requires Sound(f)
    ensures Sound(TakeNext(f)) && TakeNext(f).given == f.given
  {
    hide Encode, EncodeAll;
    if TakeNext(f) != f {
      EncodeNext(f.taken, f.queue[0]);
      OneMoreTaken(|f.taken|, |f.input.regs.replies|);
    }
  }

  lemma ServeKeepsSound(call: Call, f: File)
    requires Sound(f)
    ensures Sound(Serve(call, f).0)
  {
    hide EncodeAll, Feed;
    match call {
      case Raise(_) =>
      case ReadUpTo(_) => TakeKeepsSound(f);
      case Poll => TakeKeepsSound(f);
      case WriteBytes(bytes) =>
        FeedConserves(f.input, bytes);
        FeedStaysNegotiated(f.input, bytes);
        var n := |Feed(f.input, bytes).st.regs.replies| - |f.input.regs.replies|;
        SomeReplied(|f.taken|, |f.input.regs.replies|, n);
    }
  }

  /** A script of calls from file `f` on: the file afterwards, and what each call returned. */
  ghost function Play(script: seq<Call>, f: File): (r: (File, seq<Outcome>))
    requires Sound(f)
    ensures Sound(r.0) && |r.1| == |script|
    decreases |script|
  {
    if script == [] then (f, [])
    else
      ServeKeepsSound(script[0], f);
      var (g, o) := Serve(script[0], f);
      var (h, os) := Play(script[1..], g);
      (h, [o] + os)
  }

  lemma {:induction false} PlayAppend(a: seq<Call>, b: seq<Call>, f: File)
    requires Sound(f)
    ensures var (g, os) := Play(a, f); Play(a + b, f) == (Play(b, g).0, os + Play(b, g).1)
    decreases |a|
  {
    hide Serve;
    if a == [] {
      assert a + b == b && [] + Play(b, f).1 == Play(b, f).1;
    } else {
      ServeKeepsSound(a[0], f);
      assert (a + b)[1..] == a[1..] + b;
      var (g, o) := Serve(a[0], f);
      PlayAppend(a[1..], b, g);
      var (h, os) := Play(a[1..], g);
      ConcatAssociative([o], os, Play(b, h).1);
    }
  }

  // ---------------------------------------------------------------- release

  /** `int pending = pending_err`: large counts turn negative. */
  function Signed(w: Word): int {
    if w < 0x8000_0000 then w as int else w as int - UINT
  }

  /** `n` error replies, or none for a negative count. */
  function Apologies(n: int): (r: seq<Reply>)
    ensures |r| == if n > 0 then n else 0
  {
    if n <= 0 then [] else Apologies(n - 1) + [SlaveSpec.Reply(true, 0)]
  }

  /** All replies the hardware has when the file is released. */
  function AfterRelease(f: File): seq<Reply> {
    f.input.regs.replies + Apologies(Signed(f.input.regs.pending))
  }

  // ---------------------------------------------------------------- what every script keeps

  /** The requests raised by a script, in order. */
  function RaisedBy(script: seq<Call>): seq<Request> {
    if script == [] then [] else (if script[0].Raise? then [script[0].q] else []) + RaisedBy(script[1..])
  }

  /** The bytes returned by the reads. */
  function GotBy(outcomes: seq<Outcome>): seq<Byte> {
    if outcomes == [] then [] else (if outcomes[0].Got? then outcomes[0].bytes else []) + GotBy(outcomes[1..])
  }

  /** The bytes offered by the writes. */
  function WrittenBy(script: seq<Call>): seq<Byte> {
    if script == [] then [] else (if script[0].WriteBytes? then script[0].bytes else []) + WrittenBy(script[1..])
  }

  /** Requests are taken in the order raised, none twice, none skipped. */
  lemma {:induction false} TakenInOrder(script: seq<Call>, f: File)
    requires Sound(f)
    ensures var g := Play(script, f).0; g.taken + g.queue == f.taken + f.queue + RaisedBy(script)
    decreases |script|
  {
    hide EncodeAll, Feed;
    if script != [] {
      ServeKeepsSound(script[0], f);
      var g := Serve(script[0], f).0;
      assert g.taken + g.queue == f.taken + f.queue + if script[0].Raise? then [script[0].q] else [];
      TakenInOrder(script[1..], g);
      hide Serve, Sound, Play;
      ConcatAssociative(f.taken + f.queue, if script[0].Raise? then [script[0].q] else [], RaisedBy(script[1..]));
    }
  }

  /** What the reads return, put together, is what the file has given. */
  lemma {:induction false} ReadsAddUp(script: seq<Call>, f: File)
    requires Sound(f)
    ensures var (g, os) := Play(script, f); g.given == f.given + GotBy(os)
    decreases |script|
  {
    if script == [] {
      assert f.given + [] == f.given;
    } else {
      ServeKeepsSound(script[0], f);
      var (g, o) := Serve(script[0], f);
      var got := if o.Got? then o.bytes else [];
      TakeKeepsSound(f);
      assert g.given == f.given + got;
      var (h, os) := Play(script[1..], g);
      ReadsAddUp(script[1..], g);
      hide Serve, Sound;
      assert ([o] + os)[1..] == os;
      ConcatAssociative(f.given, got, GotBy(os));
    }
  }
}
