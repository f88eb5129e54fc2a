/**
 * The record-by-record meaning of a byte stream sent to a master device file: the bus commands it
 * causes and the bytes it is answered with. Nothing here knows about rings, chunks or positions.
 */
module Etherbone {
  import opened Bytes
  import opened Records

  const BCA: nat := 0x80
  const RCA: nat := 0x40
  const RFF: nat := 0x20
  const CYC: nat := 0x08
  const WCA: nat := 0x04
  const WFF: nat := 0x02

  /** One call through `struct wishbone_operations`. */
  datatype Cmd =
    | CycleOn
    | CycleOff
    | ByteEnable(mask: Byte)
    | Write(addr: Word, data: Word)
    | Read(addr: Word)
    | ReadCfg(addr: Word)

  /** A deterministic device: the word it drives after a bus history that ends in a read. */
  type Device = seq<Cmd> -> Word

  /** Offset of the reply header: the header's own place, or that of the last written word. */
  function ReplyAt(wcount: Byte): nat {
    if wcount == 0 then 0 else 4 + 4 * wcount as int
  }

  /** Offset of the read part (return address, then read addresses) within a record. */
  function ReadsAt(wcount: Byte): nat {
    ReplyAt(wcount) + 4
  }

  lemma RecordParts(rec: seq<Byte>)
    requires IsRecord(rec)
    ensures |rec| == ReadsAt(rec[2]) + if rec[3] == 0 then 0 else 4 + 4 * rec[3] as int
  {
  }

  /** The base address advanced `k` times, unless the target is a FIFO. */
  function WriteAddr(base: Word, fifo: bool, k: nat): Word {
    (base as int + if fifo then 0 else 4 * k) % 0x1_0000_0000
  }

  /** Data word `k` and where it goes. */
  function WriteCmd(rec: seq<Byte>, k: nat): Cmd
    requires IsRecord(rec) && k < rec[2]
  {
    Write(WriteAddr(WordAt(rec, 4), Flag(rec[0], WFF), k), WordAt(rec, 8 + 4 * k))
  }

  /** The commands for the first `k` written words; a write to the configuration space reaches no bus. */
  function WritesUpTo(rec: seq<Byte>, k: nat): seq<Cmd>
    requires IsRecord(rec) && k <= rec[2]
  {
    if k == 0 || Flag(rec[0], WCA) then [] else WritesUpTo(rec, k - 1) + [WriteCmd(rec, k - 1)]
  }

  function ReadCmd(rec: seq<Byte>, k: nat): Cmd
    requires IsRecord(rec) && k < rec[3]
  {
    var a := WordAt(rec, ReadsAt(rec[2]) + 4 + 4 * k);
    if Flag(rec[0], RCA) then ReadCfg(a) else Read(a)
  }

  /** The commands for the first `k` read addresses. */
  function ReadsUpTo(rec: seq<Byte>, k: nat): (c: seq<Cmd>)
    requires IsRecord(rec) && k <= rec[3]
    ensures |c| == k
  {
    if k == 0 then [] else ReadsUpTo(rec, k - 1) + [ReadCmd(rec, k - 1)]
  }

  function WriteCmds(rec: seq<Byte>): seq<Cmd>
    requires IsRecord(rec)
  {
    WritesUpTo(rec, rec[2] as int)
  }

  function ReadCmds(rec: seq<Byte>): (c: seq<Cmd>)
    requires IsRecord(rec)
    ensures |c| == rec[3]
  {
    ReadsUpTo(rec, rec[3] as int)
  }

  /** Everything a record does before its reads. */
  function Opening(rec: seq<Byte>, open: bool): seq<Cmd>
    requires IsRecord(rec)
  {
    (if open then [] else [CycleOn]) + [ByteEnable(rec[1])] + WriteCmds(rec)
  }

  /** All bus commands of one record. */
  function RecordCmds(rec: seq<Byte>, open: bool): seq<Cmd>
    requires IsRecord(rec)
  {
    Opening(rec, open) + ReadCmds(rec) + (if Flag(rec[0], CYC) then [CycleOff] else [])
  }

  /** The concatenated big-endian answers to `asked`, put one after the other after `hist`. */
  function Answers(dev: Device, hist: seq<Cmd>, asked: seq<Cmd>): (b: seq<Byte>)
    ensures |b| == 4 * |asked|
    decreases |asked|
  {
    if asked == [] then []
    else Answers(dev, hist, asked[..|asked| - 1]) + WordBytes(dev(hist + asked))
  }

  /** Header of the write record that carries the answers back. */
  function ReplyHeader(rec: seq<Byte>): (b: seq<Byte>)
    requires IsRecord(rec)
    ensures |b| == 4
  {
    [(if Flag(rec[0], CYC) then CYC else 0) +
     (if Flag(rec[0], RFF) then WFF else 0) +
     (if Flag(rec[0], BCA) then WCA else 0),
     rec[1], rec[3], 0]
  }

  /** The record that carries the answers of `rec` back; `before` is the bus history when the reads start. */
  function Carrier(dev: Device, before: seq<Cmd>, rec: seq<Byte>): seq<Byte>
    requires IsRecord(rec)
  {
    ReplyHeader(rec) + if rec[3] == 0 then [] else ReturnAddress(rec) + Answers(dev, before, ReadCmds(rec))
  }

  /** The return address of a record with reads, as raw bytes. */
  function ReturnAddress(rec: seq<Byte>): (b: seq<Byte>)
    requires IsRecord(rec) && rec[3] > 0
    ensures |b| == 4
  {
    var at := ReadsAt(rec[2]);
    [rec[at], rec[at + 1], rec[at + 2], rec[at + 3]]
  }

  /** The bytes a record is answered with: padding for the writes, then the carrier. */
  function RecordReply(dev: Device, hist: seq<Cmd>, rec: seq<Byte>, open: bool): (b: seq<Byte>)
    requires IsRecord(rec)
    ensures |b| == |rec|
  {
    Zeros(ReplyAt(rec[2])) + Carrier(dev, hist + Opening(rec, open), rec)
  }

  /** Whether the cycle line is up, and every command issued so far. */
  datatype Line = Line(open: bool, bus: seq<Cmd>)

  function MasterStep(dev: Device): Machine<Line> {
    (rec: seq<Byte>, l: Line) =>
      if IsRecord(rec)
      then (RecordReply(dev, l.bus, rec, l.open), Line(!Flag(rec[0], CYC), l.bus + RecordCmds(rec, l.open)))
      else ([], l)
  }

  /** Executes every whole record of `s` in order. */
  function Run(dev: Device, s: seq<Byte>, l: Line): Folded<Line> {
    Fold(MasterStep(dev), s, l)
  }

  /** Answer to the 8-byte probe. */
  function ProbeReply(probe: seq<Byte>): (b: seq<Byte>)
    requires |probe| == 8
    ensures |b| == 8
  {
    [0x4E, 0x6F, 0x12, 0x44] + probe[4..]
  }

  /** Meaning of the whole byte stream a client ever sent: the probe, then records. */
  function Master(dev: Device, input: seq<Byte>): Folded<Line> {
    if |input| < 8 then Folded(0, [], Line(false, []))
    else Then(Folded(8, ProbeReply(input[..8]), Line(false, [])), Run(dev, input[8..], Line(false, [])))
  }

  // ---------------------------------------------------------------- properties of the stream meaning

  /** Every byte consumed is answered by exactly one byte, in whole words. */
  lemma RunLength(dev: Device, s: seq<Byte>, l: Line)
    ensures var f := Run(dev, s, l); |f.out| == f.used && f.used % 4 == 0
  {
    assert LengthPreserving(MasterStep(dev)) by {
      forall rec, l | IsRecord(rec)
        ensures |MasterStep(dev)(rec, l).0| == |rec|
      {
      }
    }
    FoldLength(MasterStep(dev), s, l);
  }

  lemma MasterLength(dev: Device, input: seq<Byte>)
    ensures var f := Master(dev, input); |f.out| == f.used <= |input| && f.used % 4 == 0
    ensures |input| >= 8 <==> Master(dev, input).used >= 8
  {
    hide MasterStep, Fold, ProbeReply;
    if |input| >= 8 {
      RunLength(dev, input[8..], Line(false, []));
    }
  }

  /** More input extends the meaning of the input so far: nothing already answered or issued changes. */
  lemma MasterAppend(dev: Device, a: seq<Byte>, b: seq<Byte>)
    requires |a| >= 8
    ensures
      var f := Master(dev, a);
      f.used <= |a| && Master(dev, a + b) == Then(f, Run(dev, a[f.used..] + b, f.st))
  {
    hide MasterStep, Fold, ProbeReply;
    var l0 := Line(false, []);
    var f := Run(dev, a[8..], l0);
    assert (a + b)[8..] == a[8..] + b;
    assert (a + b)[..8] == a[..8];
    FoldAppend(MasterStep(dev), a[8..], b, l0);
    assert a[8..][f.used..] == a[8 + f.used..];
    ThenAssociative(Folded(8, ProbeReply(a[..8]), l0), f, Run(dev, a[8 + f.used..] + b, f.st));
  }

  /** The replies to an input are a prefix of the replies to every longer one. */
  lemma MasterMonotone(dev: Device, a: seq<Byte>, b: seq<Byte>)
    ensures Master(dev, a).out <= Master(dev, a + b).out
    ensures Master(dev, a).st.bus <= Master(dev, a + b).st.bus
  {
    hide Run, Fold;
    if |a| >= 8 {
      MasterAppend(dev, a, b);
      var f := Master(dev, a);
      RunHistory(dev, a[f.used..] + b, f.st);
    }
  }

  /** A run only adds to the bus history. */
  lemma {:induction false} RunHistory(dev: Device, s: seq<Byte>, l: Line)
    ensures l.bus <= Run(dev, s, l).st.bus
    decreases |s|
  {
    if Complete(s) {
      var rec := First(s);
      RunHistory(dev, s[|rec|..], MasterStep(dev)(rec, l).1);
    }
  }

  /** The unanswered tail is always a strict prefix of the probe or of one record. */
  lemma MasterTail(dev: Device, input: seq<Byte>)
    ensures
      var f := Master(dev, input);
      && f.used <= |input|
      && (if |input| < 8 then f.used == 0 else !Complete(input[f.used..]))
      && |input| - f.used <= 2051
  {
    if |input| >= 8 {
      FoldStops(MasterStep(dev), input[8..], Line(false, []));
      var f := Run(dev, input[8..], Line(false, []));
      assert input[8..][f.used..] == input[8 + f.used..];
    }
  }

  /** What is issued on the bus and how much is answered do not depend on what the device answers. */
  lemma {:induction false} BusIgnoresAnswers(d0: Device, d1: Device, s: seq<Byte>, l: Line)
    ensures Run(d0, s, l).st == Run(d1, s, l).st && Run(d0, s, l).used == Run(d1, s, l).used
    decreases |s|
  {
    if Complete(s) {
      var rec := First(s);
      BusIgnoresAnswers(d0, d1, s[|rec|..], MasterStep(d0)(rec, l).1);
    }
  }

  // ---------------------------------------------------------------- shape of replies

  lemma CarrierIsRecord(dev: Device, before: seq<Cmd>, rec: seq<Byte>)
    requires IsRecord(rec)
    ensures
      var carrier := Carrier(dev, before, rec);
      IsRecord(carrier) && carrier[1] == rec[1] && carrier[2] == rec[3] && carrier[3] == 0
  {
  }

  /**
   * A reply divides into one empty record per written word plus one (none without writes), then a
   * single record that writes as many words as were read, and reads nothing.
   */
  lemma ReplyShape(dev: Device, hist: seq<Cmd>, rec: seq<Byte>, open: bool)
    requires IsRecord(rec)
    ensures
      var carrier := Carrier(dev, hist + Opening(rec, open), rec);
      var padding := if rec[2] > 0 then rec[2] as int + 1 else 0;
      && IsRecord(carrier) && carrier[1] == rec[1] && carrier[2] == rec[3] && carrier[3] == 0
      && Divide(RecordReply(dev, hist, rec, open)) == Division(seq(padding, _ => EMPTY) + [carrier], [])
  {
    CarrierIsRecord(dev, hist + Opening(rec, open), rec);
    DividePadded(if rec[2] > 0 then rec[2] as int + 1 else 0, Carrier(dev, hist + Opening(rec, open), rec));
  }

  /** Word `k` answered is what the device drives right after the `k`-th read. */
  lemma {:induction false} AnswerWord(dev: Device, hist: seq<Cmd>, asked: seq<Cmd>, k: nat)
    requires k < |asked|
    ensures WordAt(Answers(dev, hist, asked), 4 * k) == dev(hist + asked[..k + 1])
    decreases |asked|
  {
    var n := |asked|;
    var front := asked[..n - 1];
    var all := Answers(dev, hist, asked);
    if k == n - 1 {
      assert asked[..n] == asked;
      DecodeEncode(dev(hist + asked));
    } else {
      AnswerWord(dev, hist, front, k);
      assert front[..k + 1] == asked[..k + 1];
    }
  }
}
