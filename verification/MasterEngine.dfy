/**
 * The master side of the character device: an 8192-byte ring in which requests are rewritten in
 * place into replies, proved to refine the stream meaning of module Etherbone.
 */
module MasterEngine {
  import opened Bytes
  import opened Records
  import opened Etherbone

  const RING_SIZE := 8192
  const RING_MOD := 16384

  /** `x & (RING_SIZE - 1)`. */
  function RingIndex(x: nat): (i: nat)
    ensures i < RING_SIZE
  {
    RingMask(x, 13);
    BitAnd(x, RING_SIZE - 1)
  }

  lemma RingIndexIsModulo(x: nat)
    ensures RingIndex(x) == x % RING_SIZE
  {
    RingMask(x, 13);
  }

  /** `x & (2 * RING_SIZE - 1)`; as `unsigned int`, a negative difference of positions wraps first. */
  function RingPos(x: int): (p: nat)
    requires x >= -RING_MOD
    ensures p < RING_MOD
  {
    var u := if x < 0 then x + UINT else x;
    RingMask(u, 14);
    BitAnd(u, RING_MOD - 1)
  }

  lemma RingPosIsModulo(x: int)
    requires x >= -RING_MOD
    ensures RingPos(x) == x % RING_MOD
  {
    RingMask(if x < 0 then x + UINT else x, 14);
  }

  lemma SmallPosition(x: nat)
    ensures x < RING_MOD ==> RingPos(x) == x
  {
    RingPosIsModulo(x);
  }

  /** The masks of the two ring macros. */
  lemma RingMask(x: nat, bits: nat)
    requires bits == 13 || bits == 14
    ensures bits == 13 ==> BitAnd(x, RING_SIZE - 1) == x % RING_SIZE
    ensures bits == 14 ==> BitAnd(x, RING_MOD - 1) == x % RING_MOD
  {
    MaskIsModulo(x, bits);
    RingPowers();
  }

  lemma RingPowers()
    ensures TwoTo(13) == RING_SIZE && TwoTo(14) == RING_MOD
  {
    assert TwoTo(4) == 16 && TwoTo(8) == 16 * TwoTo(4) && TwoTo(12) == 16 * TwoTo(8);
  }

  /** An aligned word never straddles the end of the ring. */
  lemma WordInRing(p: nat, j: nat)
    requires Aligned(p) && j <= 4
    ensures RingIndex(p) + 4 <= RING_SIZE && RingIndex(RingIndex(p) + j) == RingIndex(p + j)
    ensures j < 4 ==> RingIndex(p + j) == RingIndex(p) + j
  {
    hide RingIndex;
    AlignedMod(p);
    RingIndexIsModulo(p);
    RingIndexIsModulo(p + j);
    RingIndexIsModulo(RingIndex(p) + j);
  }

  /** Stream positions less than a ring apart never share a ring index. */
  lemma RingApart(k: nat, p: nat)
    requires k < p < k + RING_SIZE - 3 || p + 4 <= k < p + RING_SIZE
    ensures RingIndex(k) < RingIndex(p) || RingIndex(p) + 4 <= RingIndex(k)
  {
    hide RingIndex;
    if k < p {
      IndexBehind(k, p - k);
    } else {
      IndexBehind(p, k - p);
    }
  }

  /** `ring` holds the stream from position `lo` on. */
  ghost predicate Holds(ring: seq<Byte>, lo: nat, stream: seq<Byte>) {
    && |ring| == RING_SIZE
    && lo <= |stream| <= lo + RING_SIZE
    && forall k {:trigger RingIndex(k)} :: lo <= k < |stream| ==> ring[RingIndex(k)] == stream[k]
  }

  lemma HoldsPut(ring: seq<Byte>, lo: nat, stream: seq<Byte>, p: nat, b: seq<Byte>)
    requires Holds(ring, lo, stream) && lo <= p && p + 4 <= |stream| && Aligned(p) && |b| == 4
    ensures RingIndex(p) + 4 <= RING_SIZE
    ensures Holds(Patch(ring, RingIndex(p), b), lo, Patch(stream, p, b))
  {
    WordInRing(p, 0);
    var ring', stream' := Patch(ring, RingIndex(p), b), Patch(stream, p, b);
    forall k | lo <= k < |stream'|
      ensures ring'[RingIndex(k)] == stream'[k]
    {
      if p <= k < p + 4 {
        WordInRing(p, k - p);
      } else {
        RingApart(k, p);
      }
    }
  }

  /** Ring index `j` belongs to one of the stream positions from `lo` to `hi`. */
  ghost predicate Covered(j: nat, lo: nat, hi: nat) {
    exists p: nat :: lo <= p < hi && RingIndex(p) == j
  }

  /** Where `ring` holds nothing of the stream it is as in `idle`. */
  ghost predicate Spare(ring: seq<Byte>, idle: seq<Byte>, lo: nat, hi: nat) {
    && |ring| == |idle| == RING_SIZE
    && forall j {:trigger ring[j]} :: 0 <= j < RING_SIZE && !Covered(j, lo, hi) ==> ring[j] == idle[j]
  }

  lemma SparePut(ring: seq<Byte>, idle: seq<Byte>, lo: nat, hi: nat, p: nat, b: seq<Byte>)
    requires Spare(ring, idle, lo, hi) && lo <= p && p + 4 <= hi && Aligned(p) && |b| == 4
    ensures RingIndex(p) + 4 <= RING_SIZE && Spare(Patch(ring, RingIndex(p), b), idle, lo, hi)
  {
    hide RingIndex, Aligned;
    WordInRing(p, 0);
    WordInRing(p, 1);
    WordInRing(p, 2);
    WordInRing(p, 3);
    forall j | 0 <= j < RING_SIZE && RingIndex(p) <= j < RingIndex(p) + 4
      ensures Covered(j, lo, hi)
    {
      assert RingIndex(p + (j - RingIndex(p))) == j;
    }
  }

  /** Outside the stream positions from `lo` to `hi` the ring is the same. */
  ghost predicate Untouched(ring: seq<Byte>, ring': seq<Byte>, lo: nat, hi: nat) {
    && |ring| == |ring'| == RING_SIZE
    && forall j {:trigger ring'[j]} :: 0 <= j < RING_SIZE && !Covered(j, lo, hi) ==> ring'[j] == ring[j]
  }

  lemma NothingSpared(ring: seq<Byte>, lo: nat, hi: nat)
    requires |ring| == RING_SIZE
    ensures Spare(ring, ring, lo, hi)
  {
  }

  /** Two states of the ring that differ in one range of the stream differ nowhere else. */
  lemma OnlyRangeChanges(ring: seq<Byte>, ring': seq<Byte>, idle: seq<Byte>,
                         lo: nat, s: seq<Byte>, at: nat, out: seq<Byte>)
    requires lo <= at && at + |out| <= |s|
    requires Holds(ring, lo, s) && Spare(ring, idle, lo, |s|)
    requires Holds(ring', lo, Patch(s, at, out)) && Spare(ring', idle, lo, |s|)
    ensures Untouched(ring, ring', at, at + |out|)
  {
    hide RingIndex;
    forall j | 0 <= j < RING_SIZE && !Covered(j, at, at + |out|)
      ensures ring'[j] == ring[j]
    {
      if Covered(j, lo, |s|) {
        var p: nat :| lo <= p < |s| && RingIndex(p) == j;
        assert ring'[RingIndex(p)] == Patch(s, at, out)[p];
      }
    }
  }

  lemma HoldsWord(ring: seq<Byte>, lo: nat, stream: seq<Byte>, p: nat)
    requires Holds(ring, lo, stream) && lo <= p && p + 4 <= |stream| && Aligned(p)
    ensures RingIndex(p) + 4 <= RING_SIZE
    ensures var i := RingIndex(p);
            [ring[i], ring[i + 1], ring[i + 2], ring[i + 3]]
            == [stream[p], stream[p + 1], stream[p + 2], stream[p + 3]]
  {
    WordInRing(p, 0);
    WordInRing(p, 1);
    WordInRing(p, 2);
    WordInRing(p, 3);
    assert forall k | p <= k < p + 4 :: ring[RingIndex(k)] == stream[k];
  }

  lemma MoreZeros(n: nat)
    ensures Zeros(n) + Zeros(4) == Zeros(n + 4)
  {
  }

  /** `base_address += increment`. */
  method Advance(base: Word, fifo: bool, ghost base0: Word, ghost k: nat) returns (next: Word)
    requires base == WriteAddr(base0, fifo, k)
    ensures next == WriteAddr(base0, fifo, k + 1)
  {
    next := (base as int + if fifo then 0 else 4) % 0x1_0000_0000;
  }

  lemma SkipReturnAddress(rec: seq<Byte>, s0: seq<Byte>, at: nat, out: seq<Byte>)
    requires IsRecord(rec) && rec[3] > 0 && at + |rec| <= |s0| && StandsAt(rec, s0, at, |rec|)
    requires |out| == ReadsAt(rec[2])
    ensures Patch(s0, at, out) == Patch(s0, at, out + ReturnAddress(rec))
  {
    var q := ReadsAt(rec[2]);
    StandsByte(rec, s0, at, |rec|, q);
    StandsByte(rec, s0, at, |rec|, q + 1);
    StandsByte(rec, s0, at, |rec|, q + 2);
    StandsByte(rec, s0, at, |rec|, q + 3);
  }

  /** Position of the counter `d` behind `lo`. */
  lemma PositionBehind(lo: nat, d: nat)
    requires d <= RING_SIZE
    ensures RingPos(lo + d) == if RingPos(lo) + d < RING_MOD then RingPos(lo) + d else RingPos(lo) + d - RING_MOD
  {
    hide RingPos;
    RingPosIsModulo(lo);
    RingPosIsModulo(lo + d);
  }

  lemma IndexOfPosition(p: nat)
    ensures RingIndex(RingPos(p)) == RingIndex(p)
  {
    hide RingPos, RingIndex;
    RingPosIsModulo(p);
    RingIndexIsModulo(RingPos(p));
    RingIndexIsModulo(p);
  }

  /** Distances between positions are exact, and a position selects the ring index of its counter. */
  lemma PositionsAgree(hi: nat, lo: nat)
    requires lo <= hi <= lo + RING_SIZE
    ensures RingPos(RingPos(hi) - RingPos(lo)) == hi - lo
    ensures RingPos(RingPos(lo) + RING_SIZE - RingPos(hi)) == lo + RING_SIZE - hi
    ensures RingIndex(RingPos(lo)) == RingIndex(lo)
  {
    hide RingPos, RingIndex;
    PositionBehind(lo, hi - lo);
    RingPosIsModulo(RingPos(hi) - RingPos(lo));
    RingPosIsModulo(RingPos(lo) + RING_SIZE - RingPos(hi));
    IndexOfPosition(lo);
  }

  lemma PositionAdvances(p: nat, n: nat)
    ensures RingPos(RingPos(p) + n) == RingPos(p + n)
  {
    hide RingPos;
    RingPosIsModulo(p);
    RingPosIsModulo(p + n);
    RingPosIsModulo(RingPos(p) + n);
  }

  /** The ring part that starts at position `lo`, wrapped at the ring end. */
  function Wrapped(ring: seq<Byte>, i: nat, len: nat): seq<Byte>
    requires |ring| == RING_SIZE && i < RING_SIZE && len <= RING_SIZE
  {
    if RING_SIZE - i < len then ring[i..] + ring[..len - (RING_SIZE - i)] else ring[i..i + len]
  }

  /** Index of the `k`-th byte behind the one at index `i`. */
  lemma IndexBehind(p: nat, k: nat)
    requires k < RING_SIZE
    ensures RingIndex(p + k) == if RingIndex(p) + k < RING_SIZE then RingIndex(p) + k else RingIndex(p) + k - RING_SIZE
  {
    hide RingIndex;
    RingIndexIsModulo(p);
    RingIndexIsModulo(p + k);
  }

  lemma HoldsWrapped(ring: seq<Byte>, lo: nat, stream: seq<Byte>, len: nat)
    requires Holds(ring, lo, stream) && lo + len <= |stream|
    ensures Wrapped(ring, RingIndex(lo), len) == stream[lo..lo + len]
    ensures Holds(ring, lo + len, stream)
  {
    var w := Wrapped(ring, RingIndex(lo), len);
    forall k | 0 <= k < len
      ensures w[k] == stream[lo..lo + len][k]
    {
      IndexBehind(lo, k);
      assert ring[RingIndex(lo + k)] == stream[lo + k];
    }
  }

  /** `ring` after copying `data` in from index `i` on, wrapped at the ring end. */
  ghost predicate CopiedIn(ring: seq<Byte>, ring': seq<Byte>, i: nat, data: seq<Byte>) {
    && |ring| == |ring'| == RING_SIZE && i < RING_SIZE && |data| <= RING_SIZE
    && forall j {:trigger ring'[j]} :: 0 <= j < RING_SIZE ==>
         ring'[j] == if i <= j < i + |data| then data[j - i]
                     else if j + RING_SIZE < i + |data| then data[j + RING_SIZE - i]
                     else ring[j]
  }

  lemma HoldsCopied(ring: seq<Byte>, ring': seq<Byte>, lo: nat, stream: seq<Byte>, data: seq<Byte>)
    requires Holds(ring, lo, stream) && |stream| + |data| <= lo + RING_SIZE
    requires CopiedIn(ring, ring', RingIndex(|stream|), data)
    ensures Holds(ring', lo, stream + data)
  {
    hide RingIndex;
    var n := |stream|;
    forall k | lo <= k < n + |data|
      ensures ring'[RingIndex(k)] == (stream + data)[k]
    {
      if k >= n {
        IndexBehind(n, k - n);
      } else if n - k < RING_SIZE {
        IndexBehind(k, n - k);
      }
    }
  }

  lemma TailStands(head: seq<Byte>, all: seq<Byte>)
    ensures StandsAt(all, head + all, |head|, |all|)
  {
    StandsWhere(all, head + all, |head|, |all|);
  }

  /** Rewriting a prefix of `all` behind `head`. */
  lemma PatchTail(head: seq<Byte>, all: seq<Byte>, out: seq<Byte>)
    requires |out| <= |all|
    ensures Patch(head + all, |head|, out) == head + out + all[|out|..]
  {
  }

  /** What running the not yet executed input adds to the meaning of input `a`. */
  lemma MasterContinues(dev: Device, a: seq<Byte>, input: seq<Byte>)
    requires a <= input && |input| >= 8
    ensures
      var f := if |a| < 8 then Folded(8, ProbeReply(input[..8]), Line(false, [])) else Master(dev, a);
      && f.used == |f.out| <= |input|
      && var g := Run(dev, input[f.used..], f.st);
         |g.out| == g.used && Master(dev, input) == Then(f, g)
         && input[f.used..][g.used..] == input[f.used + g.used..]
  {
    hide Run, Master, ProbeReply;
    if |a| < 8 {
      MasterOf(dev, input);
      RunLength(dev, input[8..], Line(false, []));
    } else {
      MasterLength(dev, a);
      var f := Master(dev, a);
      assert a[f.used..] + input[|a|..] == input[f.used..];
      assert a + input[|a|..] == input;
      MasterAppend(dev, a, input[|a|..]);
      RunLength(dev, input[f.used..], f.st);
    }
    var f := if |a| < 8 then Folded(8, ProbeReply(input[..8]), Line(false, [])) else Master(dev, a);
    var g := Run(dev, input[f.used..], f.st);
    MasterLength(dev, input);
    assert f.used + g.used <= |input|;
    assert input[f.used..][g.used..] == input[f.used + g.used..];
  }

  lemma MasterOf(dev: Device, input: seq<Byte>)
    requires |input| >= 8
    ensures Master(dev, input)
         == Then(Folded(8, ProbeReply(input[..8]), Line(false, [])), Run(dev, input[8..], Line(false, [])))
  {
  }

  lemma MasterShort(dev: Device, input: seq<Byte>)
    requires |input| < 8
    ensures Master(dev, input) == Folded(0, [], Line(false, []))
  {
  }

  /** Bytes behind the written range are as before. */
  lemma {:induction false} StandsBehind(rec: seq<Byte>, s: seq<Byte>, p: nat, out: seq<Byte>, n: nat)
    requires p + |out| <= |s| && n <= |rec| && StandsAt(rec, s, p + |out|, n)
    ensures StandsAt(rec, Patch(s, p, out), p + |out|, n)
  {
    if n > 0 {
      StandsBehind(rec, s, p, out, n - 1);
    }
  }

  lemma OpeningIssued(hist: seq<Cmd>, rec: seq<Byte>, open: bool)
    requires IsRecord(rec)
    ensures (if open then hist else hist + [CycleOn]) + [ByteEnable(rec[1])] + WriteCmds(rec)
         == hist + Opening(rec, open)
  {
  }

  lemma RecordIssued(hist: seq<Cmd>, rec: seq<Byte>, open: bool)
    requires IsRecord(rec)
    ensures
      var done := hist + Opening(rec, open) + ReadCmds(rec);
      (if Flag(rec[0], CYC) then done + [CycleOff] else done) == hist + RecordCmds(rec, open)
  {
  }

  lemma ReplyParts(dev: Device, before: seq<Cmd>, rec: seq<Byte>, pad: seq<Byte>)
    requires IsRecord(rec) && rec[3] > 0
    ensures pad + ReplyHeader(rec) + ReturnAddress(rec) + Answers(dev, before, ReadCmds(rec))
         == pad + Carrier(dev, before, rec)
  {
    var answers := Answers(dev, before, ReadCmds(rec));
    ConcatAssociative(pad, ReplyHeader(rec), ReturnAddress(rec));
    ConcatAssociative(pad, ReplyHeader(rec) + ReturnAddress(rec), answers);
    ConcatAssociative(ReplyHeader(rec), ReturnAddress(rec), answers);
  }

  lemma AnswersGrow(dev: Device, hist: seq<Cmd>, rec: seq<Byte>, k: nat)
    requires IsRecord(rec) && k < rec[3]
    ensures Answers(dev, hist, ReadsUpTo(rec, k + 1))
         == Answers(dev, hist, ReadsUpTo(rec, k)) + WordBytes(dev(hist + ReadsUpTo(rec, k) + [ReadCmd(rec, k)]))
  {
    var next := ReadsUpTo(rec, k + 1);
    assert next[..k] == ReadsUpTo(rec, k);
    assert hist + next == hist + ReadsUpTo(rec, k) + [ReadCmd(rec, k)];
  }

  /** The bus behind `wops`, as one context sees it: it logs every command and answers reads. */
  class Bus {
    const dev: Device
    var trace: seq<Cmd>

    constructor (dev: Device)
      ensures this.dev == dev && trace == []
    {
      this.dev := dev;
      trace := [];
    }

    method Issue(c: Cmd)
      modifies this
      ensures trace == old(trace) + [c]
    {
      trace := trace + [c];
    }

    method Ask(c: Cmd) returns (w: Word)
      modifies this
      ensures trace == old(trace) + [c] && w == dev(trace)
    {
      trace := trace + [c];
      w := dev(trace);
    }
  }

  datatype State = Header | Idle | Cycle

  class MasterContext {
    const bus: Bus
    const buf: array<Byte>
    var state: State
    var sent: nat
    var processed: nat
    var received: nat

    ghost var accepted: seq<Byte>   // every byte taken from the user
    ghost var delivered: seq<Byte>  // every byte given to the user
    ghost var stream: seq<Byte>     // accepted, with the processed part rewritten into replies
    ghost var handled: nat          // length of the processed part
    ghost var idle: seq<Byte>       // the ring when bytes were last copied out or in

    /** The ring holds the undelivered part of the stream, and is otherwise as it was. */
    ghost predicate Ring()
      reads this, buf
    {
      Holds(buf[..], |delivered|, stream) && Spare(buf[..], idle, |delivered|, |stream|)
    }

    /** The positions of the source are the unbounded counters modulo twice the ring size. */
    ghost predicate Positions()
      reads this
    {
      && sent == RingPos(|delivered|) && processed == RingPos(handled) && received == RingPos(|stream|)
      && |delivered| <= handled <= |stream| <= |delivered| + RING_SIZE
      && (if state == Header then handled == 0 else handled >= 8 && Aligned(handled))
    }

    constructor (bus: Bus)
      ensures this.bus == bus && fresh(buf) && Ring() && Positions()
      ensures state == Header && handled == 0 && accepted == delivered == stream == []
    {
      this.bus := bus;
      buf := new Byte[RING_SIZE];
      state, sent, processed, received := Header, 0, 0, 0;
      accepted, delivered, stream, handled := [], [], [], 0;
      new;
      idle := buf[..];
    }

    /** Stores four bytes at ring index `i`, which is stream position `at + |out|`, and moves past them. */
    method Put(i: nat, b: seq<Byte>, ghost s0: seq<Byte>, ghost at: nat, ghost out: seq<Byte>) returns (next: nat)
      requires Ring() && |b| == 4 && |delivered| <= at
      requires at + |out| + 4 <= |s0| && stream == Patch(s0, at, out)
      requires Aligned(at + |out|) && i == RingIndex(at + |out|)
      modifies buf, this`stream
      ensures Ring() && stream == Patch(s0, at, out + b)
      ensures next == RingIndex(at + |out| + 4)
    {
      HoldsPut(buf[..], |delivered|, stream, at + |out|, b);
      SparePut(buf[..], idle, |delivered|, |stream|, at + |out|, b);
      PatchMore(s0, at, out, b);
      buf[i], buf[i + 1], buf[i + 2], buf[i + 3] := b[0], b[1], b[2], b[3];
      assert buf[..] == Patch(old(buf[..]), i, b);
      stream := Patch(stream, at + |out|, b);
      WordInRing(at + |out|, 4);
      next := RingIndex(i + 4);
    }

    /** Loads the word at ring index `i`, which is stream position `at + |out|`, still as received. */
    method Get(i: nat, ghost s0: seq<Byte>, ghost at: nat, ghost out: seq<Byte>) returns (w: Word)
      requires Ring() && |delivered| <= at
      requires at + |out| + 4 <= |s0| && stream == Patch(s0, at, out)
      requires Aligned(at + |out|) && i == RingIndex(at + |out|)
      ensures w == WordAt(s0, at + |out|)
    {
      HoldsWord(buf[..], |delivered|, stream, at + |out|);
      w := Join(buf[i], buf[i + 1], buf[i + 2], buf[i + 3]);
    }

    /** Zeroes the word at ring index `i` and moves on to the next word. */
    method Erase(i: nat, ghost s0: seq<Byte>, ghost at: nat, ghost n: nat) returns (next: nat)
      requires Ring() && |delivered| <= at
      requires at + n + 4 <= |s0| && stream == Patch(s0, at, Zeros(n))
      requires Aligned(at + n) && i == RingIndex(at + n)
      modifies buf, this`stream
      ensures Ring() && stream == Patch(s0, at, Zeros(n + 4))
      ensures next == RingIndex(at + n + 4)
    {
      next := Put(i, Zeros(4), s0, at, Zeros(n));
      MoreZeros(n);
    }

    /** The header and the first `k` words after it are erased; `i` and `base` belong to data word `k`. */
    ghost predicate Erased(rec: seq<Byte>, s0: seq<Byte>, at: nat, k: nat, i: nat, base: Word)
      requires IsRecord(rec) && k <= rec[2] && at + |rec| <= |s0|
      reads this, buf
    {
      var p := at + 4 + 4 * k;
      && Ring() && |delivered| <= at && StandsAt(rec, s0, at, |rec|)
      && stream == Patch(s0, at, Zeros(4 + 4 * k)) && Aligned(p) && i == RingIndex(p)
      && (rec[2] > 0 ==> base == WriteAddr(WordAt(rec, 4), Flag(rec[0], WFF), k))
    }

    /** Erases the word before data word `k` and puts that data word on the bus. */
    method WriteOne(i: nat, base: Word, wff: bool, wca: bool,
                    ghost rec: seq<Byte>, ghost s0: seq<Byte>, ghost at: nat, ghost k: nat)
      returns (i': nat, base': Word)
      requires IsRecord(rec) && k < rec[2] && at + |rec| <= |s0| && Erased(rec, s0, at, k, i, base)
      requires wff == Flag(rec[0], WFF) && wca == Flag(rec[0], WCA)
      modifies buf, this`stream, bus
      ensures Erased(rec, s0, at, k + 1, i', base')
      ensures bus.trace == old(bus.trace) + if wca then [] else [WriteCmd(rec, k)]
    {
      hide Patch, Holds, Spare, StandsAt, RingIndex, WordAt, WriteAddr;
      i' := Erase(i, s0, at, 4 + 4 * k);
      if !wca {
        var data := Get(i', s0, at, Zeros(8 + 4 * k));
        StandsWord(rec, s0, at, 8 + 4 * k);
        bus.Issue(Cmd.Write(base, data));
      }
      base' := Advance(base, wff, WordAt(rec, 4), k);
    }

    /** The write part of a record. */
    method Writes(i0: nat, flags: Byte, wcount: Byte, ghost rec: seq<Byte>, ghost s0: seq<Byte>, ghost at: nat)
      returns (i: nat, ghost base1: Word)
      requires IsRecord(rec) && at + |rec| <= |s0| && flags == rec[0] && 0 < wcount == rec[2]
      requires Erased(rec, s0, at, 0, i0, WordAt(rec, 4))
      modifies buf, this`stream, bus
      ensures Erased(rec, s0, at, wcount as int, i, base1)
      ensures bus.trace == old(bus.trace) + WritesUpTo(rec, wcount as int)
    {
      hide Patch, Holds, Spare, StandsAt, RingIndex;
      var wff, wca := Flag(flags, WFF), Flag(flags, WCA);
      i := i0;
      var base := Get(i, s0, at, Zeros(4));
      StandsWord(rec, s0, at, 4);
      ghost var k := 0;
      var j := wcount as int;
      while j > 0
        invariant 0 <= j && k == wcount as int - j
        invariant Erased(rec, s0, at, k, i, base)
        invariant bus.trace == old(bus.trace) + WritesUpTo(rec, k)
      {
        i, base := WriteOne(i, base, wff, wca, rec, s0, at, k);
        k, j := k + 1, j - 1;
      }
      base1 := base;
    }

    /** The reply is `head` and the answers to the first `k` reads; `i` belongs to read address `k`. */
    ghost predicate Answered(rec: seq<Byte>, s0: seq<Byte>, at: nat, head: seq<Byte>, hist: seq<Cmd>, k: nat, i: nat)
      requires IsRecord(rec) && k <= rec[3] && at + |rec| <= |s0|
      reads this, buf, bus
    {
      var p := at + |head| + 4 * k;
      && Ring() && |delivered| <= at && StandsAt(rec, s0, at, |rec|)
      && |head| == ReadsAt(rec[2]) + 4 && p <= |s0| && Aligned(p) && i == RingIndex(p)
      && stream == Patch(s0, at, head + Answers(bus.dev, hist, ReadsUpTo(rec, k)))
      && bus.trace == hist + ReadsUpTo(rec, k)
    }

    /** Replaces read address `k` by what the device answers. */
    method ReadOne(i: nat, rca: bool, ghost rec: seq<Byte>, ghost s0: seq<Byte>, ghost at: nat,
                   ghost head: seq<Byte>, ghost hist: seq<Cmd>, ghost k: nat)
      returns (next: nat)
      requires IsRecord(rec) && k < rec[3] && at + |rec| <= |s0| && rca == Flag(rec[0], RCA)
      requires |head| == ReadsAt(rec[2]) + 4 && Answered(rec, s0, at, head, hist, k, i)
      modifies buf, this`stream, bus
      ensures Answered(rec, s0, at, head, hist, k + 1, next)
    {
      hide Patch, Holds, Spare, StandsAt, RingIndex, WordAt, Answers;
      ghost var out := head + Answers(bus.dev, hist, ReadsUpTo(rec, k));
      var addr := Get(i, s0, at, out);
      StandsWord(rec, s0, at, |out|);
      AnswersGrow(bus.dev, hist, rec, k);
      assert out + WordBytes(bus.dev(hist + ReadsUpTo(rec, k) + [ReadCmd(rec, k)]))
          == head + Answers(bus.dev, hist, ReadsUpTo(rec, k + 1));
      var data := bus.Ask(if rca then ReadCfg(addr) else Cmd.Read(addr));
      next := Put(i, WordBytes(data), s0, at, out);
    }

    /** Everything between raising the cycle line and the reply header. */
    method WritePart(i: nat, flags: Byte, wcount: Byte, ghost rec: seq<Byte>, ghost s0: seq<Byte>, ghost at: nat)
      returns (next: nat)
      requires Ring() && |delivered| <= at && Aligned(at) && i == RingIndex(at) && stream == s0
      requires IsRecord(rec) && at + |rec| <= |s0| && StandsAt(rec, s0, at, |rec|)
      requires flags == rec[0] && wcount == rec[2]
      modifies buf, this`stream, bus
      ensures Ring() && stream == Patch(s0, at, Zeros(ReplyAt(wcount)))
      ensures Aligned(at + ReplyAt(wcount)) && next == RingIndex(at + ReplyAt(wcount))
      ensures bus.trace == old(bus.trace) + WriteCmds(rec)
    {
      hide Patch, Holds, Spare, StandsAt, RingIndex, WordAt;
      next := i;
      PatchNothing(s0, at);
      if wcount > 0 {
        next := Erase(next, s0, at, 0);
        ghost var base;
        next, base := Writes(next, flags, wcount, rec, s0, at);
      }
    }

    /** The reads; `head` is everything of the reply before the answers. */
    method Reads(i: nat, rca: bool, rcount: Byte,
                 ghost rec: seq<Byte>, ghost s0: seq<Byte>, ghost at: nat, ghost head: seq<Byte>)
      returns (next: nat)
      requires IsRecord(rec) && rcount == rec[3] && at + |rec| <= |s0| && rca == Flag(rec[0], RCA)
      requires Answered(rec, s0, at, head, bus.trace, 0, i)
      modifies buf, this`stream, bus
      ensures Answered(rec, s0, at, head, old(bus.trace), rcount as int, next)
    {
      next := i;
      ghost var k := 0;
      var j := rcount as int;
      while j > 0
        invariant 0 <= j && k == rcount as int - j
        invariant Answered(rec, s0, at, head, old(bus.trace), k, next)
      {
        next := ReadOne(next, rca, rec, s0, at, head, old(bus.trace), k);
        k, j := k + 1, j - 1;
      }
    }

    /** Stores the reply header over the last word of the request's header and write part. */
    method PutHeader(i: nat, flags: Byte, be: Byte, rcount: Byte,
                     ghost rec: seq<Byte>, ghost s0: seq<Byte>, ghost at: nat)
      returns (next: nat)
      requires Ring() && |delivered| <= at
      requires IsRecord(rec) && at + |rec| <= |s0|
      requires flags == rec[0] && be == rec[1] && rcount == rec[3]
      requires stream == Patch(s0, at, Zeros(ReplyAt(rec[2])))
      requires Aligned(at + ReplyAt(rec[2])) && i == RingIndex(at + ReplyAt(rec[2]))
      modifies buf, this`stream
      ensures Ring() && stream == Patch(s0, at, Zeros(ReplyAt(rec[2])) + ReplyHeader(rec))
      ensures Aligned(at + ReadsAt(rec[2])) && next == RingIndex(at + ReadsAt(rec[2]))
    {
      var header := [(if Flag(flags, CYC) then CYC else 0) +
                     (if Flag(flags, RFF) then WFF else 0) +
                     (if Flag(flags, BCA) then WCA else 0),
                     be, rcount, 0];
      next := Put(i, header, s0, at, Zeros(ReplyAt(rec[2])));
    }

    /** The reply header, then the reads. */
    method ReadPart(i: nat, flags: Byte, be: Byte, rcount: Byte,
                    ghost rec: seq<Byte>, ghost s0: seq<Byte>, ghost at: nat)
      returns (next: nat)
      requires Ring() && |delivered| <= at
      requires IsRecord(rec) && at + |rec| <= |s0| && StandsAt(rec, s0, at, |rec|)
      requires flags == rec[0] && be == rec[1] && rcount == rec[3]
      requires stream == Patch(s0, at, Zeros(ReplyAt(rec[2])))
      requires Aligned(at + ReplyAt(rec[2])) && i == RingIndex(at + ReplyAt(rec[2]))
      modifies buf, this`stream, bus
      ensures Ring() && stream == Patch(s0, at, Zeros(ReplyAt(rec[2])) + Carrier(bus.dev, old(bus.trace), rec))
      ensures next == RingIndex(at + |rec|)
      ensures bus.trace == old(bus.trace) + ReadCmds(rec)
    {
      hide Patch, Holds, Spare, StandsAt, RingIndex, WordAt, ReplyHeader, ReturnAddress;
      next := PutHeader(i, flags, be, rcount, rec, s0, at);
      RecordParts(rec);
      ghost var out := Zeros(ReplyAt(rec[2])) + ReplyHeader(rec);
      assert ReplyHeader(rec) + [] == ReplyHeader(rec);
      if rcount > 0 {
        // move past the header, leaving the return address intact
        ghost var head := out + ReturnAddress(rec);
        SkipReturnAddress(rec, s0, at, out);
        WordInRing(at + ReadsAt(rec[2]), 4);
        next := RingIndex(next + 4);
        assert head + [] == head;
        next := Reads(next, Flag(flags, RCA), rcount, rec, s0, at, head);
        ReplyParts(bus.dev, old(bus.trace), rec, Zeros(ReplyAt(rec[2])));
        assert at + |rec| == at + |head| + 4 * rcount as int;
      }
    }

    /** Executes one record and rewrites it. */
    method Rewrite(i: nat, flags: Byte, be: Byte, wcount: Byte, rcount: Byte,
                   ghost rec: seq<Byte>, ghost s0: seq<Byte>, ghost at: nat)
      returns (next: nat)
      requires Ring() && |delivered| <= at && Aligned(at) && i == RingIndex(at) && stream == s0
      requires IsRecord(rec) && at + |rec| <= |s0| && StandsAt(rec, s0, at, |rec|)
      requires flags == rec[0] && be == rec[1] && wcount == rec[2] && rcount == rec[3] && state != Header
      modifies buf, this`stream, this`state, bus
      ensures Ring() && next == RingIndex(at + |rec|)
      ensures state == if Flag(rec[0], CYC) then Idle else Cycle
      ensures stream == Patch(s0, at, RecordReply(bus.dev, old(bus.trace), rec, old(state == Cycle)))
      ensures bus.trace == old(bus.trace) + RecordCmds(rec, old(state == Cycle))
    {
      hide Holds, Spare, Patch, StandsAt, RingIndex, Aligned, ReadCmds, WriteCmds, Carrier;
      ghost var hist, open := bus.trace, state == Cycle;
      if state == Idle {
        bus.Issue(CycleOn);
        state := Cycle;
      }
      bus.Issue(ByteEnable(be));
      next := WritePart(i, flags, wcount, rec, s0, at);
      OpeningIssued(hist, rec, open);
      next := ReadPart(next, flags, be, rcount, rec, s0, at);
      if Flag(flags, CYC) {
        bus.Issue(CycleOff);
        state := Idle;
      }
      RecordIssued(hist, rec, open);
    }

    /** One whole record: the body of the loop over complete records. The rest of the ring is untouched. */
    method Execute(i: nat, flags: Byte, be: Byte, wcount: Byte, rcount: Byte,
                   ghost rec: seq<Byte>, ghost s0: seq<Byte>, ghost at: nat)
      returns (next: nat)
      requires Ring() && |delivered| <= at && Aligned(at) && i == RingIndex(at) && stream == s0
      requires IsRecord(rec) && at + |rec| <= |s0| && StandsAt(rec, s0, at, |rec|)
      requires flags == rec[0] && be == rec[1] && wcount == rec[2] && rcount == rec[3] && state != Header
      modifies buf, this`stream, this`state, bus
      ensures Ring() && next == RingIndex(at + |rec|)
      ensures state == if Flag(rec[0], CYC) then Idle else Cycle
      ensures stream == Patch(s0, at, RecordReply(bus.dev, old(bus.trace), rec, old(state == Cycle)))
      ensures bus.trace == old(bus.trace) + RecordCmds(rec, old(state == Cycle))
      ensures Untouched(old(buf[..]), buf[..], at, at + |rec|)
    {
      hide *;
      ghost var ring, hist, open := buf[..], bus.trace, state == Cycle;
      RingMeans();
      next := Rewrite(i, flags, be, wcount, rcount, rec, s0, at);
      RingMeans();
      OnlyRangeChanges(ring, buf[..], idle, |delivered|, s0, at, RecordReply(bus.dev, hist, rec, open));
    }

    lemma RingMeans()
      requires Ring()
      ensures Holds(buf[..], |delivered|, stream) && Spare(buf[..], idle, |delivered|, |stream|)
    {
    }

    /**
     * Of the unprocessed `all`, standing at `p0` of stream `s0`, a part is rewritten into `out`; `Run`
     * agrees, and `todo` is still to do.
     */
    ghost predicate Progress(s0: seq<Byte>, p0: nat, all: seq<Byte>, l0: Line, out: seq<Byte>, todo: seq<Byte>)
      reads this, buf, bus
    {
      var at := p0 + |out|;
      && Ring() && state != Header && |delivered| <= p0 && Aligned(at)
      && at + |todo| == |s0| && StandsAt(todo, s0, at, |todo|)
      && stream == Patch(s0, p0, out)
      && FoldsTo(MasterStep(bus.dev), all, l0, out, Line(state == Cycle, bus.trace), todo)
    }

    /** Executes the whole record in front of `i`. */
    method ExecuteNext(i: nat, flags: Byte, be: Byte, wcount: Byte, rcount: Byte, ghost s0: seq<Byte>, ghost p0: nat,
                       ghost all: seq<Byte>, ghost l0: Line, ghost out: seq<Byte>, ghost todo: seq<Byte>)
      returns (next: nat, ghost out': seq<Byte>, ghost todo': seq<Byte>)
      requires Progress(s0, p0, all, l0, out, todo) && i == RingIndex(p0 + |out|)
      requires Complete(todo) && flags == todo[0] && be == todo[1] && wcount == todo[2] && rcount == todo[3]
      modifies buf, this`stream, this`state, bus
      ensures Progress(s0, p0, all, l0, out', todo')
      ensures |todo'| == |todo| - RecordLen(wcount, rcount) && next == RingIndex(p0 + |out'|)
    {
      hide RecordReply, RecordCmds, Patch, Holds, Spare, Aligned, StandsAt, Fold, FoldsTo;
      ghost var at, l := p0 + |out|, Line(state == Cycle, bus.trace);
      ghost var rec := First(todo);
      ghost var reply := RecordReply(bus.dev, bus.trace, rec, l.open);
      out', todo' := out + reply, todo[|rec|..];
      FoldsOn(MasterStep(bus.dev), all, l0, out, l, todo);
      StandsSplit(todo, s0, at, |rec|);
      StandsBehind(rec, s0, p0, out, |rec|);
      next := Execute(i, flags, be, wcount, rcount, rec, stream, at);
      PatchMore(s0, p0, out, reply);
      AlignedSum(at, |rec|);
    }

    /** Loads the header in front of `i`. */
    method NextHeader(i: nat, ghost s0: seq<Byte>, ghost p0: nat, ghost out: seq<Byte>, ghost todo: seq<Byte>)
      returns (flags: Byte, be: Byte, wcount: Byte, rcount: Byte)
      requires p0 + |out| + |todo| == |s0| && StandsAt(todo, s0, p0 + |out|, |todo|)
      requires Ring() && stream == Patch(s0, p0, out) && |delivered| <= p0 && Aligned(p0 + |out|)
      requires |todo| >= 4 && i == RingIndex(p0 + |out|)
      ensures flags == todo[0] && be == todo[1] && wcount == todo[2] && rcount == todo[3]
    {
      ghost var p := p0 + |out|;
      HoldsWord(buf[..], |delivered|, stream, p);
      StandsByte(todo, s0, p, |todo|, 0);
      StandsByte(todo, s0, p, |todo|, 1);
      StandsByte(todo, s0, p, |todo|, 2);
      StandsByte(todo, s0, p, |todo|, 3);
      flags, be, wcount, rcount := buf[i], buf[i + 1], buf[i + 2], buf[i + 3];
    }

    /** The loop over whole records, from ring index `i0` on; returns how many bytes are left over. */
    method Records(i0: nat, size: nat, ghost p0: nat, ghost all: seq<Byte>) returns (left: nat, ghost out: seq<Byte>)
      requires Ring() && state != Header && |delivered| <= p0 && Aligned(p0)
      requires p0 + size == |stream| && size == |all| && StandsAt(all, stream, p0, |all|) && i0 == RingIndex(p0)
      modifies buf, this`stream, this`state, bus
      ensures Ring() && state != Header && left <= size && |out| == size - left && Aligned(p0 + |out|)
      ensures p0 + |out| <= |old(stream)| && stream == Patch(old(stream), p0, out)
      ensures Run(bus.dev, all, old(Line(state == Cycle, bus.trace)))
           == Folded(|out|, out, Line(state == Cycle, bus.trace))
    {
      hide Fold, Patch, Holds, Spare, FoldsTo, StandsAt;
      ghost var s0, l0, todo := stream, Line(state == Cycle, bus.trace), all;
      var i := i0;
      left, out := size, [];
      PatchNothing(s0, p0);
      FoldsStart(MasterStep(bus.dev), all, l0);
      while left >= 4
        invariant Progress(s0, p0, all, l0, out, todo)
        invariant left == |todo| && i == RingIndex(p0 + |out|)
      {
        var flags, be, wcount, rcount := NextHeader(i, s0, p0, out, todo);
        var recordLen := RecordLen(wcount, rcount);
        if left < recordLen { break; }
        i, out, todo := ExecuteNext(i, flags, be, wcount, rcount, s0, p0, all, l0, out, todo);
        left := left - recordLen;
      }
      FoldsEnd(MasterStep(bus.dev), all, l0, out, Line(state == Cycle, bus.trace), todo);
    }

    /** The part of `etherbone_master_process` after the probe; `all` is the unprocessed part of the stream. */
    method ProcessRecords(ghost all: seq<Byte>)
      requires Ring() && Positions() && state != Header
      requires handled + |all| == |stream| && StandsAt(all, stream, handled, |all|)
      modifies buf, this`stream, this`state, this`processed, this`handled, bus
      ensures Ring() && Positions() && state != Header
      ensures
        var f := Run(bus.dev, all, old(Line(state == Cycle, bus.trace)));
        && |f.out| == f.used && handled == old(handled) + f.used <= |stream|
        && stream == Patch(old(stream), old(handled), f.out)
        && Line(state == Cycle, bus.trace) == f.st
    {
      hide Patch, Holds, Spare, StandsAt, Run, RingPos, RingIndex;
      var i, size := RingIndex(processed), RingPos(received - processed);
      PositionsAgree(|stream|, handled);
      ghost var out;
      var left;
      left, out := Records(i, size, handled, all);
      PositionAdvances(handled, size - left);
      handled := handled + |out|;
      processed := RingPos(processed + (size - left));
    }

    /** Stream, bus and state are what the first `|a|` accepted bytes mean; the rest is still as received. */
    ghost predicate Reflects(a: seq<Byte>)
      reads this, bus
    {
      var f := Master(bus.dev, a);
      && a <= accepted && handled == f.used == |f.out| <= |a|
      && stream == f.out + accepted[handled..]
      && Line(state == Cycle, bus.trace) == f.st
      && (state == Header <==> |a| < 8)
    }

    ghost predicate Valid()
      reads this, buf, bus
    {
      Ring() && Positions() && Reflects(accepted) && delivered <= stream
    }

    /** Answers the probe in place. */
    method Probe()
      requires Ring() && Positions() && state == Header && |stream| >= 8 && |delivered| == 0
      modifies buf, this`stream, this`state, this`processed, this`handled
      ensures Ring() && Positions() && state == Idle && handled == 8
      ensures stream == ProbeReply(old(stream[..8])) + old(stream[8..])
    {
      ghost var s0 := stream;
      PatchNothing(s0, 0);
      RingIndexIsModulo(0);
      SmallPosition(8);
      hide RingIndex, RingPos;
      var _ := Put(0, [0x4E, 0x6F, 0x12, 0x44], s0, 0, []);
      PatchSlices(s0, 0, [0x4E, 0x6F, 0x12, 0x44]);
      processed, handled, state := 8, 8, Idle;
    }

    /** Executes the records of `all`, which follow the reply part `f.out` of the stream. */
    method ProcessFrom(ghost f: Folded<Line>, ghost all: seq<Byte>)
      requires Ring() && Positions() && state != Header && handled == |f.out| && stream == f.out + all
      requires Line(state == Cycle, bus.trace) == f.st
      modifies buf, this`stream, this`state, this`processed, this`handled, bus
      ensures Ring() && Positions() && state != Header
      ensures var g := Run(bus.dev, all, f.st);
              && |g.out| == g.used <= |all| && handled == |f.out| + g.used
              && stream == f.out + g.out + all[g.used..] && Line(state == Cycle, bus.trace) == g.st
    {
      hide Run, Patch, Holds, Spare, StandsAt, Positions;
      TailStands(f.out, all);
      ProcessRecords(all);
      PatchTail(f.out, all, Run(bus.dev, all, f.st).out);
    }

    /** `etherbone_master_process`: executes and answers whatever became complete since input `a`. */
    method Process(ghost a: seq<Byte>)
      requires Ring() && Positions() && Reflects(a) && |delivered| <= handled
      modifies buf, this`stream, this`state, this`processed, this`handled, bus
      ensures Ring() && Positions() && Reflects(accepted)
    {
      hide Run, Master, ProbeReply, Holds, Spare, Aligned, RingPos;
      ghost var f := Master(bus.dev, a);
      if state == Header {
        MasterShort(bus.dev, a);
        SmallPosition(|stream|);
        if received < 8 {
          MasterShort(bus.dev, accepted);
          return;
        }
        assert stream == accepted;
        Probe();
        f := Folded(8, ProbeReply(accepted[..8]), Line(false, []));
      }
      MasterContinues(bus.dev, a, accepted);
      ProcessFrom(f, accepted[f.used..]);
    }

    /** Copies `len` bytes out from behind the delivered ones, wrapping at the ring end. */
    method CopyOut(len: nat) returns (bytes: seq<Byte>)
      requires Ring() && sent == RingPos(|delivered|) && |delivered| + len <= |stream| && delivered <= stream
      modifies this`sent, this`delivered, this`idle
      ensures Ring() && sent == RingPos(|delivered|) && delivered == old(delivered) + bytes
      ensures |bytes| == len && delivered <= stream
    {
      assert buf.Length == RING_SIZE;
      hide Holds, Spare, RingPos, RingIndex;
      IndexOfPosition(|delivered|);
      var i := RingIndex(sent);
      var bufLen := RING_SIZE - i;
      if bufLen < len {
        bytes := buf[i..] + buf[..len - bufLen];
      } else {
        bytes := buf[i..i + len];
      }
      assert bytes == Wrapped(buf[..], i, len);
      HoldsWrapped(buf[..], |delivered|, stream, len);
      PositionAdvances(|delivered|, len);
      sent := RingPos(sent + len);
      delivered := delivered + bytes;
      idle := buf[..];
      NothingSpared(buf[..], |delivered|, |stream|);
    }

    /** `char_master_aio_read` with room for `room` bytes. */
    method Read(room: nat) returns (bytes: seq<Byte>)
      requires Valid()
      modifies this`sent, this`delivered, this`idle
      ensures Valid() && delivered == old(delivered) + bytes
      ensures
        var out := Master(bus.dev, accepted).out;
        |bytes| == Min(room, |out| - |old(delivered)|) && delivered <= out
    {
      hide Holds, Spare, Master, RingIndex, Aligned, RingPos;
      if room == 0 { return []; }
      PositionsAgree(handled, |delivered|);
      var len := Min(room, RingPos(processed - sent));
      bytes := CopyOut(len);
    }

    /** Copies `data` behind the received bytes, wrapping at the ring end. */
    method CopyIn(data: seq<Byte>)
      requires Ring() && received == RingPos(|stream|) && |stream| + |data| <= |delivered| + RING_SIZE
      modifies buf, this`received, this`stream, this`idle
      ensures Ring() && received == RingPos(|stream|) && stream == old(stream) + data
    {
      assert buf.Length == RING_SIZE;
      hide Holds, Spare, RingPos, RingIndex;
      ghost var ring := buf[..];
      PositionsAgree(|stream|, |stream|);
      var len, i := |data|, RingIndex(received);
      var bufLen := RING_SIZE - i;
      if bufLen < len {
        forall k | 0 <= k < bufLen { buf[i + k] := data[k]; }
        forall k | 0 <= k < len - bufLen { buf[k] := data[bufLen + k]; }
      } else {
        forall k | 0 <= k < len { buf[i + k] := data[k]; }
      }
      assert CopiedIn(ring, buf[..], i, data);
      HoldsCopied(ring, buf[..], |delivered|, stream, data);
      PositionAdvances(|stream|, len);
      received := RingPos(received + len);
      stream := stream + data;
      idle := buf[..];
      NothingSpared(buf[..], |delivered|, |stream|);
    }

    /** `char_master_aio_write`: takes as much of `data` as fits and executes what became complete. */
    method Write(data: seq<Byte>) returns (len: nat)
      requires Valid()
      modifies this, buf, bus
      ensures Valid() && delivered == old(delivered)
      ensures len == Min(|data|, RING_SIZE - (|old(accepted)| - |delivered|))
      ensures accepted == old(accepted) + data[..len]
    {
      hide Holds, Spare, Master, RingIndex, Aligned, RingPos;
      if |data| == 0 { return 0; }
      PositionsAgree(|stream|, |delivered|);
      len := Min(|data|, RingPos(sent + RING_SIZE - received));
      ghost var a := accepted;
      CopyIn(data[..len]);
      accepted := accepted + data[..len];
      Process(a);
      MasterMonotone(bus.dev, a, data[..len]);
    }

    /** `char_master_release` drops a cycle line that is still up. */
    method Release()
      requires Valid()
      modifies bus
      ensures bus.trace == old(bus.trace) + if Master(bus.dev, accepted).st.open then [CycleOff] else []
    {
      if state == Cycle {
        bus.Issue(CycleOff);
      }
    }
  }
}
