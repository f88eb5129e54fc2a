/**
 * The record-level loop between the two sides: a request read from the slave file, executed by a
 * master, and the master's reply written back to the slave file answers the hardware exactly once.
 */
module ClosedLoop {
  import opened Bytes
  import opened Records
  import opened Etherbone
  import opened SlaveSpec
  import opened SlaveFile

  /** The device access a request asks for. */
  function AccessOf(q: Request): Cmd {
    if q.write then Write(q.addr, q.data) else Read(q.addr)
  }

  /** The commands of one request up to and including its access, and up to the read of the error register. */
  function UpToAccess(q: Request, l: Line): seq<Cmd> {
    l.bus + (if l.open then [] else [CycleOn]) + [ByteEnable(q.mask), AccessOf(q)]
  }

  function UpToError(q: Request, l: Line): seq<Cmd> {
    UpToAccess(q, l) + [ByteEnable(0xf), ReadCfg(4)]
  }

  /** The value a read request got, or what the data register held before. */
  function Value(dev: Device, q: Request, l: Line, data: Word): Word {
    if q.write then data else dev(UpToAccess(q, l))
  }

  /** What the hardware is told: the low error bit, and the value. */
  function ReplyTo(dev: Device, q: Request, l: Line, data: Word): Reply {
    Reply(dev(UpToError(q, l)) % 2 == 1, Value(dev, q, l, data))
  }

  function LineAfter(q: Request, l: Line): Line {
    Line(false, UpToError(q, l) + [CycleOff])
  }

  /** Read requests with some byte lanes disabled are echoed with that mask, and then refused. */
  predicate Answerable(q: Request) {
    q.write || q.mask == 0xf
  }

  // ---------------------------------------------------------------- master side

  lemma RequestWords(q: Request)
    ensures
      var rec := RequestRecord(q);
      && rec[0] == 0x80 && rec[1] == q.mask
      && (q.write ==> rec[2] == 1 && rec[3] == 0 && WordAt(rec, 4) == q.addr && WordAt(rec, 8) == q.data)
      && (!q.write ==> rec[2] == 0 && rec[3] == 1 && WordAt(rec, 4) == WBA_DATA && WordAt(rec, 8) == q.addr)
  {
    DecodeEncode(q.addr);
    DecodeEncode(q.data);
    var rec := RequestRecord(q);
    hide ToBE, WordBytes;
    if q.write {
      assert rec[4..8] == WordBytes(q.addr) && rec[8..12] == WordBytes(q.data);
      assert WordAt(rec, 4) == WordAt(rec[4..8], 0);
      assert WordAt(rec, 8) == WordAt(rec[8..12], 0);
    } else {
      assert rec[8..12] == WordBytes(q.addr);
      assert WordAt(rec, 8) == WordAt(rec[8..12], 0);
    }
  }

  /** The request record puts exactly its access on the bus. */
  lemma RequestCommands(q: Request, open: bool)
    ensures
      var rec := RequestRecord(q);
      && RecordCmds(rec, open) == (if open then [] else [CycleOn]) + [ByteEnable(q.mask), AccessOf(q)]
      && Opening(rec, open) + ReadCmds(rec) == RecordCmds(rec, open)
      && !Flag(rec[0], CYC)
  {
    hide RequestRecord, WordAt;
    RequestWords(q);
    var rec := RequestRecord(q);
    assert !Flag(0x80, CYC) && !Flag(0x80, RCA) && !Flag(0x80, WCA) && !Flag(0x80, WFF);
    if q.write {
      assert WritesUpTo(rec, 0) == [];
      assert WriteCmds(rec) == [WriteCmd(rec, 0)];
      assert ReadCmds(rec) == [];
    } else {
      assert ReadsUpTo(rec, 0) == [];
      assert ReadCmds(rec) == [ReadCmd(rec, 0)];
      assert WriteCmds(rec) == [];
    }
  }

  lemma OneAnswer(dev: Device, before: seq<Cmd>, c: Cmd)
    ensures Answers(dev, before, [c]) == WordBytes(dev(before + [c]))
  {
    assert [c][..0] == [];
    assert [] + WordBytes(dev(before + [c])) == WordBytes(dev(before + [c]));
  }

  /** A record that carries one word `w` to register `addr`. */
  lemma HandleOneWord(r: Regs, c: seq<Byte>, addr: Word, w: Word)
    requires |c| == 12 && c[1] == 0xf && c[2] == 1 && c[3] == 0 && Flag(c[0], WCA)
    requires WordAt(c, 4) == addr && c[8..12] == WordBytes(w)
    ensures IsRecord(c) && Handle(r, c) == WriteReg(r, addr, w)
  {
    hide WriteReg, Flag;
    assert WordAt(c, 8) == WordAt(c[8..12], 0);
    DecodeEncode(w);
    hide WordAt, NextAddr;
    var v := WriteReg(r, addr, w);
    var fifo := Flag(c[0], WFF);
    assert WriteWords(r, addr, fifo, c, 0)
        == if v.ok then WriteWords(v.st, NextAddr(addr, fifo), fifo, c, 1) else v;
  }

  /** What the slave makes of the carrier of a request record. */
  lemma RequestHandled(dev: Device, q: Request, l: Line, r: Regs)
    ensures
      var rec := RequestRecord(q);
      var c := Carrier(dev, l.bus + Opening(rec, l.open), rec);
      && IsRecord(c)
      && Handle(r, c).ok == Answerable(q)
      && (Answerable(q) ==> Handle(r, c).st == r.(data := Value(dev, q, l, r.data)))
  {
    hide RequestRecord, WordBytes, Answers, Opening;
    var rec := RequestRecord(q);
    var before := l.bus + Opening(rec, l.open);
    var c := Carrier(dev, before, rec);
    CarrierIsRecord(dev, before, rec);
    RequestWords(q);
    RequestCommands(q, l.open);
    assert Flag(0x80, BCA) && !Flag(0x80, RFF);
    assert ReplyHeader(rec)[0] == 4 && Flag(4, WCA);
    if !q.write {
      assert ReadsUpTo(rec, 0) == [];
      assert ReadCmds(rec) == [Read(q.addr)];
      OneAnswer(dev, before, Read(q.addr));
      assert before + [Read(q.addr)] == UpToAccess(q, l) by {
        var raise := if l.open then [] else [CycleOn];
        assert Opening(rec, l.open) + [Read(q.addr)] == raise + [ByteEnable(q.mask), Read(q.addr)];
        ConcatAssociative(l.bus, Opening(rec, l.open), [Read(q.addr)]);
        ConcatAssociative(l.bus, raise, [ByteEnable(q.mask), Read(q.addr)]);
      }
      var w := dev(UpToAccess(q, l));
      assert c[8..12] == WordBytes(w);
      assert WordAt(c, 4) == WordAt(rec, 4);
      if q.mask == 0xf {
        HandleOneWord(r, c, WBA_DATA, w);
      }
    }
  }

  lemma ErrorCommands()
    ensures IsRecord(ERROR_RECORD) && Flag(ERROR_RECORD[0], CYC)
    ensures Opening(ERROR_RECORD, true) == [ByteEnable(0xf)] && ReadCmds(ERROR_RECORD) == [ReadCfg(4)]
    ensures RecordCmds(ERROR_RECORD, true) == [ByteEnable(0xf), ReadCfg(4), CycleOff]
  {
    var rec := ERROR_RECORD;
    assert WriteCmds(rec) == [];
    assert Flag(0xC8, RCA) && Flag(0xC8, CYC) && WordAt(rec, 8) == 4;
    assert ReadsUpTo(rec, 0) == [];
    assert ReadCmds(rec) == [ReadCmd(rec, 0)];
  }

  /** What the slave makes of the carrier of the error record. */
  lemma ErrorHandled(dev: Device, hist: seq<Cmd>, r: Regs)
    ensures
      var c := Carrier(dev, hist + [ByteEnable(0xf)], ERROR_RECORD);
      IsRecord(ERROR_RECORD) && IsRecord(c)
      && Handle(r, c) == WriteReg(r, WBA_ERR, dev(hist + [ByteEnable(0xf), ReadCfg(4)]))
  {
    hide WordBytes, Answers, WriteReg;
    ErrorCommands();
    var rec := ERROR_RECORD;
    var before := hist + [ByteEnable(0xf)];
    var c := Carrier(dev, before, rec);
    CarrierIsRecord(dev, before, rec);
    OneAnswer(dev, before, ReadCfg(4));
    assert before + [ReadCfg(4)] == hist + [ByteEnable(0xf), ReadCfg(4)];
    assert Flag(0xC8, BCA) && !Flag(0xC8, RFF) && Flag(0xC8, CYC);
    assert ReplyHeader(rec)[0] == 12 && Flag(12, WCA);
    var w := dev(hist + [ByteEnable(0xf), ReadCfg(4)]);
    assert c[8..12] == WordBytes(w);
    HandleOneWord(r, c, WBA_ERR, w);
  }

  // ---------------------------------------------------------------- both sides together

  /** A master's reply to one request: two records, the second of which ends the cycle. */
  lemma MasterOnRequest(dev: Device, q: Request, l: Line, rest: seq<Byte>)
    ensures
      var r1 := RecordReply(dev, l.bus, RequestRecord(q), l.open);
      var h := UpToAccess(q, l);
      var r2 := RecordReply(dev, h, ERROR_RECORD, true);
      IsRecord(ERROR_RECORD)
      && Run(dev, Encode(q) + rest, l) == Then(Folded(24, r1 + r2, LineAfter(q, l)), Run(dev, rest, LineAfter(q, l)))
  {
    hide RequestRecord, RecordReply, RecordCmds, Fold, Flag;
    var rec1, rec2 := RequestRecord(q), ERROR_RECORD;
    ErrorCommands();
    RequestCommands(q, l.open);
    var h := UpToAccess(q, l);
    var l1 := Line(true, h);
    ConcatAssociative(l.bus, if l.open then [] else [CycleOn], [ByteEnable(q.mask), AccessOf(q)]);
    assert MasterStep(dev)(rec1, l) == (RecordReply(dev, l.bus, rec1, l.open), l1);
    ConcatAssociative(h, [ByteEnable(0xf), ReadCfg(4)], [CycleOff]);
    assert [ByteEnable(0xf), ReadCfg(4)] + [CycleOff] == [ByteEnable(0xf), ReadCfg(4), CycleOff];
    assert MasterStep(dev)(rec2, l1) == (RecordReply(dev, h, rec2, true), LineAfter(q, l));
    assert Encode(q) + rest == rec1 + (rec2 + rest);
    FoldCons(MasterStep(dev), rec1, rec2 + rest, l);
    FoldCons(MasterStep(dev), rec2, rest, l1);
    ThenAssociative(Folded(12, RecordReply(dev, l.bus, rec1, l.open), l1),
                    Folded(12, RecordReply(dev, h, rec2, true), LineAfter(q, l)), Run(dev, rest, LineAfter(q, l)));
  }

  lemma {:induction false} HandlePadding(r: Regs, n: nat, records: seq<seq<Byte>>)
    requires forall rec :: rec in records ==> IsRecord(rec)
    ensures forall rec :: rec in seq(n, _ => EMPTY) + records ==> IsRecord(rec)
    ensures HandleAll(r, seq(n, _ => EMPTY) + records) == HandleAll(r, records)
  {
    if n == 0 {
      assert seq(0, _ => EMPTY) + records == records;
    } else {
      HandlePadding(r, n - 1, records);
      PaddingRecords(n, records);
      HeaderOnly(r, EMPTY);
      assert ([EMPTY] + (seq(n - 1, _ => EMPTY) + records))[1..] == seq(n - 1, _ => EMPTY) + records;
    }
  }

  /** Feeding a reply to a record is handling its carrier, if more follows or the carrier has a body. */
  lemma FeedReply(i: Input, dev: Device, hist: seq<Cmd>, rec: seq<Byte>, open: bool)
    requires i.negotiated && i.fill == [] && IsRecord(rec)
    ensures
      var c := Carrier(dev, hist + Opening(rec, open), rec);
      IsRecord(c)
      && var v, h := Feed(i, RecordReply(dev, hist, rec, open)), Handle(i.regs, c);
         v.ok == h.ok && v.st.regs == h.st
         && (v.ok ==> v.st.negotiated && v.st.fill == if |c| == 4 then c else [])
  {
    hide RecordReply, Carrier, Handle, Feed, Divide;
    var c := Carrier(dev, hist + Opening(rec, open), rec);
    var padding := if rec[2] > 0 then rec[2] as int + 1 else 0;
    ReplyShape(dev, hist, rec, open);
    Reassembly(i, RecordReply(dev, hist, rec, open));
    var d := seq(padding, _ => EMPTY) + [c];
    HandlePadding(i.regs, padding, [c]);
    assert HandleAll(i.regs, [c]) == Handle(i.regs, c) by {
      var one: seq<seq<Byte>> := [c];
      assert one[1..] == [];
    }
    assert d[|d| - 1] == c;
  }

  /** The registers after a request was answered. */
  function Answered(dev: Device, q: Request, l: Line, r: Regs): Regs
    requires r.pending > 0
  {
    Regs(r.pending - 1, Value(dev, q, l, r.data), r.replies + [ReplyTo(dev, q, l, r.data)])
  }

  /** A bare header that is still waiting disappears without effect when more arrives. */
  lemma WaitingHeader(i: Input, bytes: seq<Byte>)
    requires i.negotiated && |i.fill| == 4 && IsRecord(i.fill) && bytes != []
    ensures exists log :: Feed(i, bytes) == Feed(Input(true, [], i.regs, log), bytes)
  {
    hide Feed, Handle;
    SettleFirst(i, bytes);
    HeaderOnly(i.regs, i.fill);
    assert Feed(i, bytes) == Feed(Input(true, [], i.regs, i.handled + [i.fill]), bytes);
  }

  /**
   * One request, looped through any master with any device: accepted exactly when it is answerable and
   * outstanding, and then answered once, with the value read and the error bit of this very cycle.
   */
  lemma RequestAnswered(dev: Device, q: Request, l: Line, i: Input)
    requires i.negotiated && i.fill == []
    ensures
      var v := Feed(i, Run(dev, Encode(q), l).out);
      && (v.ok <==> Answerable(q) && i.regs.pending > 0)
      && (v.ok ==> v.st.negotiated && v.st.fill == [] && v.st.regs == Answered(dev, q, l, i.regs))
  {
    hide Feed, RecordReply, Carrier, RequestRecord, Encode, Handle, Run, Opening;
    MasterOnRequest(dev, q, l, []);
    assert Encode(q) + [] == Encode(q);
    RunNothing(dev, LineAfter(q, l));
    var rec1, rec2, h := RequestRecord(q), ERROR_RECORD, UpToAccess(q, l);
    var r1, r2 := RecordReply(dev, l.bus, rec1, l.open), RecordReply(dev, h, rec2, true);
    assert (r1 + r2) + [] == r1 + r2;
    FeedAppend(i, r1, r2);
    FeedReply(i, dev, l.bus, rec1, l.open);
    RequestHandled(dev, q, l, i.regs);
    if Answerable(q) {
      var i1 := Feed(i, r1).st;
      if i1.fill != [] {
        CarrierIsRecord(dev, l.bus + Opening(rec1, l.open), rec1);
        WaitingHeader(i1, r2);
        var log :| Feed(i1, r2) == Feed(Input(true, [], i1.regs, log), r2);
        i1 := Input(true, [], i1.regs, log);
      }
      ErrorCommands();
      FeedReply(i1, dev, h, rec2, true);
      ErrorHandled(dev, h, i1.regs);
      ErrorCarrierLong(dev, h);
    }
  }

  lemma ErrorCarrierLong(dev: Device, hist: seq<Cmd>)
    ensures IsRecord(ERROR_RECORD) && |Carrier(dev, hist + [ByteEnable(0xf)], ERROR_RECORD)| == 12
  {
    ErrorCommands();
  }

  lemma RunNothing(dev: Device, l: Line)
    ensures Run(dev, [], l) == Folded(0, [], l)
  {
  }

  /** Line and registers after a sequence of requests went round the loop. */
  ghost function AnsweredAll(dev: Device, qs: seq<Request>, l: Line, r: Regs): (result: (Line, Regs))
    requires |qs| <= r.pending as int
    ensures result.1.pending as int == r.pending as int - |qs| && |result.1.replies| == |r.replies| + |qs|
  {
    if qs == [] then (l, r)
    else
      var (l1, r1) := AnsweredAll(dev, qs[..|qs| - 1], l, r);
      var q := qs[|qs| - 1];
      (LineAfter(q, l1), Answered(dev, q, l1, r1))
  }

  /**
   * Closed loop: however many requests the slave side hands out, if all are answerable and still
   * outstanding, their encodings executed by a master and fed back are accepted as a whole and give
   * exactly one reply per request, in order.
   */
  lemma {:induction false} EveryRequestAnswered(dev: Device, qs: seq<Request>, l: Line, i: Input)
    requires i.negotiated && i.fill == [] && |qs| <= i.regs.pending as int
    requires forall q :: q in qs ==> Answerable(q)
    ensures
      var f := Run(dev, EncodeAll(qs), l);
      var v := Feed(i, f.out);
      && f.used == |EncodeAll(qs)| && v.ok && v.st.negotiated && v.st.fill == []
      && (f.st, v.st.regs) == AnsweredAll(dev, qs, l, i.regs)
    decreases |qs|
  {
    hide Feed, Run, Encode, Answered, LineAfter, Answerable;
    if qs == [] {
      RunNothing(dev, l);
      FeedNothing(i);
    } else {
      var front, q := qs[..|qs| - 1], qs[|qs| - 1];
      EveryRequestAnswered(dev, front, l, i);
      var f := Run(dev, EncodeAll(front), l);
      RunAppendExact(dev, EncodeAll(front), Encode(q), l);
      OneRequestRuns(dev, q, f.st);
      FeedAppend(i, f.out, Run(dev, Encode(q), f.st).out);
      RequestAnswered(dev, q, f.st, Feed(i, f.out).st);
    }
  }

  lemma RunAppendExact(dev: Device, a: seq<Byte>, b: seq<Byte>, l: Line)
    requires Run(dev, a, l).used == |a|
    ensures Run(dev, a + b, l) == Then(Run(dev, a, l), Run(dev, b, Run(dev, a, l).st))
  {
    FoldAppend(MasterStep(dev), a, b, l);
    assert a[|a|..] + b == b;
  }

  lemma OneRequestRuns(dev: Device, q: Request, l: Line)
    ensures Run(dev, Encode(q), l).used == 24 && Run(dev, Encode(q), l).st == LineAfter(q, l)
  {
    hide Encode, Run;
    MasterOnRequest(dev, q, l, []);
    assert Encode(q) + [] == Encode(q);
    RunNothing(dev, LineAfter(q, l));
  }

  /**
   * The loop closes on records only: the slave refuses what this repository's master answers to a
   * probe, because the master sets version bits 0x12 and the slave wants the low bits to be 6.
   */
  lemma MasterProbeReplyRefused(probe: seq<Byte>, i: Input)
    requires |probe| == 8 && !i.negotiated && i.fill == []
    ensures !Feed(i, ProbeReply(probe)).ok
  {
    var answer := ProbeReply(probe);
    Negotiation(i, answer[..4], answer[4..]);
    assert answer == answer[..4] + answer[4..];
  }
}
