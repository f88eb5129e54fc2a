/**
 * What one Etherbone record does, position by position and in plain numbers: every bus command it causes,
 * every byte it is answered with, and what that means for a memory behind the bus.
 */
module RecordMeaning {
  import opened Bytes
  import opened Records
  import opened Etherbone
  import opened PcieWindow
  import opened PcieMasks

  // ---------------------------------------------------------------- flags

  /** A flag is set if its bit is. */
  lemma {:induction false} FlagIsBit(b: nat, bits: nat)
    requires b < 0x100
    ensures Flag(b, TwoTo(bits)) <==> BitAnd(b, TwoTo(bits)) != 0
    decreases bits
  {
    var p := TwoTo(bits);
    if bits == 0 {
      assert BitAnd(b, 1) == 2 * BitAnd(b / 2, 0) + b % 2;
    } else {
      var m := TwoTo(bits - 1);
      FlagIsBit(b / 2, bits - 1);
      Halved(b, m);
      assert p / 2 == m && p % 2 == 0;
      assert BitAnd(b, p) == 2 * BitAnd(b / 2, m);
    }
  }

  lemma Halved(b: nat, m: nat)
    requires m > 0
    ensures b / (2 * m) == b / 2 / m
  {
    var q, r := b / 2 / m, b / 2 % m;
    assert b == 2 * m * q + (2 * r + b % 2);
    var d := b / (2 * m) - q;
    assert 2 * m * d == 2 * r + b % 2 - b % (2 * m);
    Stretch(2 * m, d);
  }

  lemma FlagsAre(b: Byte)
    ensures Flag(b, 0x80) <==> BitAnd(b, 0x80) != 0
    ensures Flag(b, 0x40) <==> BitAnd(b, 0x40) != 0
    ensures Flag(b, 0x20) <==> BitAnd(b, 0x20) != 0
    ensures Flag(b, 0x08) <==> BitAnd(b, 0x08) != 0
    ensures Flag(b, 0x04) <==> BitAnd(b, 0x04) != 0
    ensures Flag(b, 0x02) <==> BitAnd(b, 0x02) != 0
  {
    assert TwoTo(1) == 2;
    assert TwoTo(2) == 4;
    assert TwoTo(3) == 8;
    assert TwoTo(4) == 0x10;
    assert TwoTo(5) == 0x20;
    assert TwoTo(6) == 0x40;
    assert TwoTo(7) == 0x80;
    FlagIsBit(b, 1);
    FlagIsBit(b, 2);
    FlagIsBit(b, 3);
    FlagIsBit(b, 5);
    FlagIsBit(b, 6);
    FlagIsBit(b, 7);
  }

  // ---------------------------------------------------------------- commands

  /** A record is a header, then base address and data if anything is written, then return address and addresses. */
  lemma RecordIs(rec: seq<Byte>)
    requires |rec| >= 4
    ensures
      var w, r := rec[2] as int, rec[3] as int;
      IsRecord(rec) <==> |rec| == 4 + (if w > 0 then 4 + 4 * w else 0) + (if r > 0 then 4 + 4 * r else 0)
  {
  }

  /** Number of words a record writes to the bus: none if bit 0x04 directs them to the configuration space. */
  function Written(rec: seq<Byte>): nat
    requires |rec| >= 4
  {
    if BitAnd(rec[0], 0x04) != 0 then 0 else rec[2]
  }

  lemma WriteIs(rec: seq<Byte>, k: nat)
    requires IsRecord(rec) && k < rec[2]
    ensures 8 + 4 * k + 4 <= |rec|
    ensures
      WriteCmd(rec, k)
      == Write(if BitAnd(rec[0], 0x02) != 0 then WordAt(rec, 4) else (WordAt(rec, 4) as int + 4 * k) % 0x1_0000_0000,
               WordAt(rec, 8 + 4 * k))
  {
    FlagsAre(rec[0]);
    DataWithin(rec, k);
    hide Flag, BitAnd, WordAt, RecordLen, IsRecord;
    var base, fifo := WordAt(rec, 4), Flag(rec[0], WFF);
    assert WriteCmd(rec, k) == Write(WriteAddr(base, fifo, k), WordAt(rec, 8 + 4 * k));
    AddressIs(base, fifo, k);
  }

  lemma AddressIs(base: Word, fifo: bool, k: nat)
    ensures WriteAddr(base, fifo, k) == if fifo then base else (base as int + 4 * k) % 0x1_0000_0000
  {
  }

  lemma DataWithin(rec: seq<Byte>, k: nat)
    requires IsRecord(rec) && k < rec[2]
    ensures 8 + 4 * k + 4 <= |rec|
  {
  }

  lemma {:induction false} WritesAre(rec: seq<Byte>, n: nat, k: nat)
    requires IsRecord(rec) && n <= rec[2] && BitAnd(rec[0], 0x04) == 0
    ensures |WritesUpTo(rec, n)| == n
    ensures k < n ==>
      && 8 + 4 * k + 4 <= |rec|
      && WritesUpTo(rec, n)[k]
         == Write(if BitAnd(rec[0], 0x02) != 0 then WordAt(rec, 4) else (WordAt(rec, 4) as int + 4 * k) % 0x1_0000_0000,
                  WordAt(rec, 8 + 4 * k))
    decreases n
  {
    FlagsAre(rec[0]);
    hide Flag, BitAnd, WriteCmd;
    if n > 0 {
      WritesAre(rec, n - 1, k);
      if k == n - 1 {
        WriteIs(rec, k);
      }
    }
  }

  lemma {:induction false} ReadsAre(rec: seq<Byte>, n: nat, k: nat)
    requires IsRecord(rec) && k < n <= rec[3]
    ensures
      var at := (if rec[2] == 0 then 8 else 12 + 4 * rec[2] as int) + 4 * k;
      && at + 4 <= |rec|
      && ReadsUpTo(rec, n)[k] == if BitAnd(rec[0], 0x40) != 0 then ReadCfg(WordAt(rec, at)) else Read(WordAt(rec, at))
    decreases n
  {
    FlagsAre(rec[0]);
    hide Flag, BitAnd, WordAt;
    if k < n - 1 {
      ReadsAre(rec, n - 1, k);
    }
  }

  /**
   * All bus commands of a record in order: the cycle is raised unless it is up, the byte lanes are selected, every data
   * word is written to the base address (bit 0x02) or to consecutive words from there, every address is read (from the
   * configuration space with bit 0x40), and the cycle is dropped with bit 0x08.
   */
  lemma CommandsAre(rec: seq<Byte>, open: bool)
    requires IsRecord(rec)
    ensures
      var c, w := RecordCmds(rec, open), Written(rec);
      var o := if open then 0 else 1;
      && |c| == o + 1 + w + rec[3] as int + (if BitAnd(rec[0], 0x08) != 0 then 1 else 0)
      && (!open ==> c[0] == CycleOn)
      && c[o] == ByteEnable(rec[1])
      && (BitAnd(rec[0], 0x08) != 0 ==> c[|c| - 1] == CycleOff)
  {
    FlagsAre(rec[0]);
    hide Flag, BitAnd;
    if BitAnd(rec[0], 0x04) == 0 {
      WritesAre(rec, rec[2] as int, 0);
    }
  }

  /** Where each written word goes. */
  lemma CommandWrites(rec: seq<Byte>, open: bool, k: nat)
    requires IsRecord(rec) && k < Written(rec)
    ensures
      var c, at, base := RecordCmds(rec, open), (if open then 1 else 2) + k, WordAt(rec, 4) as int;
      && at < |c| && 8 + 4 * k + 4 <= |rec|
      && c[at] == Write(if BitAnd(rec[0], 0x02) != 0 then base else (base + 4 * k) % 0x1_0000_0000,
                        WordAt(rec, 8 + 4 * k))
  {
    OpeningIs(rec, open);
    WritesAre(rec, rec[2] as int, k);
    DataWithin(rec, k);
    OpeningEnds(rec, open);
    hide BitAnd, WordAt, WriteCmds, IsRecord, RecordLen, RecordCmds, Opening;
    var opening, w := Opening(rec, open), WriteCmds(rec);
    assert w[k] == opening[|opening| - |w|..][k];
  }

  /** Where each word read comes from. */
  lemma CommandReads(rec: seq<Byte>, open: bool, k: nat)
    requires IsRecord(rec) && k < rec[3]
    ensures
      var c, i := RecordCmds(rec, open), (if open then 1 else 2) + Written(rec) + k;
      var at := (if rec[2] == 0 then 8 else 12 + 4 * rec[2] as int) + 4 * k;
      && i < |c| && at + 4 <= |rec|
      && c[i] == if BitAnd(rec[0], 0x40) != 0 then ReadCfg(WordAt(rec, at)) else Read(WordAt(rec, at))
  {
    OpeningIs(rec, open);
    ReadsAre(rec, rec[3] as int, k);
    hide BitAnd, WordAt, ReadsUpTo, Opening;
    var n := |Opening(rec, open)|;
    assert RecordCmds(rec, open)[n + k] == ReadCmds(rec)[k];
  }

  lemma OpeningEnds(rec: seq<Byte>, open: bool)
    requires IsRecord(rec)
    ensures |WriteCmds(rec)| <= |Opening(rec, open)|
    ensures Opening(rec, open)[|Opening(rec, open)| - |WriteCmds(rec)|..] == WriteCmds(rec)
  {
    hide WriteCmds;
  }

  lemma OpeningIs(rec: seq<Byte>, open: bool)
    requires IsRecord(rec)
    ensures |Opening(rec, open)| == (if open then 1 else 2) + Written(rec)
    ensures Opening(rec, open) <= RecordCmds(rec, open)
  {
    FlagsAre(rec[0]);
    hide Flag, BitAnd;
    if BitAnd(rec[0], 0x04) == 0 {
      WritesAre(rec, rec[2] as int, 0);
    }
  }

  // ---------------------------------------------------------------- the answer

  /** Where the reply's own header stands: in place of the last written word, or of the record's header. */
  function HeaderAt(rec: seq<Byte>): nat
    requires |rec| >= 4
  {
    if rec[2] == 0 then 0 else 4 + 4 * rec[2] as int
  }

  /**
   * The reply byte by byte: zeros up to its header, bit 0x08 kept, bit 0x20 moved to 0x02 and bit 0x80 to 0x04, the
   * byte lanes and the number of words read as number of words written, and the return address as it came.
   */
  lemma ReplyIs(dev: Device, hist: seq<Cmd>, rec: seq<Byte>, open: bool)
    requires IsRecord(rec)
    ensures
      var r, h := RecordReply(dev, hist, rec, open), HeaderAt(rec);
      && |r| == |rec| && h + 4 <= |r|
      && (forall i :: 0 <= i < h ==> r[i] == 0)
      && r[h] as int == (if BitAnd(rec[0], 0x08) != 0 then 0x08 else 0)
                        + (if BitAnd(rec[0], 0x20) != 0 then 0x02 else 0)
                        + (if BitAnd(rec[0], 0x80) != 0 then 0x04 else 0)
      && r[h + 1] == rec[1] && r[h + 2] == rec[3] && r[h + 3] == 0
      && (rec[3] > 0 ==> h + 8 <= |r| && r[h + 4..h + 8] == rec[h + 4..h + 8])
  {
    FlagsAre(rec[0]);
    hide Flag, BitAnd, Answers, Opening, RecordLen;
    var carrier := Carrier(dev, hist + Opening(rec, open), rec);
    assert RecordReply(dev, hist, rec, open) == Zeros(HeaderAt(rec)) + carrier;
    ReturnIs(rec);
    if rec[3] > 0 {
      assert carrier[4..8] == ReturnAddress(rec);
    }
  }

  lemma ReturnIs(rec: seq<Byte>)
    requires IsRecord(rec)
    ensures rec[3] > 0 ==> HeaderAt(rec) + 8 <= |rec| && ReturnAddress(rec) == rec[HeaderAt(rec) + 4..HeaderAt(rec) + 8]
  {
  }

  /** Word `k` of the answer is what the device drives right after the `k`-th read. */
  lemma ReplyWords(dev: Device, hist: seq<Cmd>, rec: seq<Byte>, open: bool, k: nat)
    requires IsRecord(rec) && k < rec[3]
    ensures
      var r, n := RecordReply(dev, hist, rec, open), (if open then 1 else 2) + Written(rec) + k + 1;
      && HeaderAt(rec) + 8 + 4 * k + 4 <= |r| && n <= |RecordCmds(rec, open)|
      && WordAt(r, HeaderAt(rec) + 8 + 4 * k) == dev(hist + RecordCmds(rec, open)[..n])
  {
    OpeningIs(rec, open);
    var opening, asked := Opening(rec, open), ReadCmds(rec);
    AnswerWord(dev, hist + opening, asked, k);
    AnswersStand(dev, hist, rec, open);
    CommandsBegin(rec, open, k + 1);
    hide Opening, BitAnd, ReadCmds, Answers, RecordReply, WordAt, RecordCmds, IsRecord, RecordLen;
    ConcatAssociative(hist, opening, asked[..k + 1]);
    WordWithin(RecordReply(dev, hist, rec, open), HeaderAt(rec) + 8, 4 * k);
  }

  lemma CommandsBegin(rec: seq<Byte>, open: bool, n: nat)
    requires IsRecord(rec) && n <= rec[3]
    ensures
      var opening := Opening(rec, open);
      && |opening| + n <= |RecordCmds(rec, open)|
      && RecordCmds(rec, open)[..|opening| + n] == opening + ReadCmds(rec)[..n]
  {
    hide Opening, ReadCmds;
  }

  lemma AnswersStand(dev: Device, hist: seq<Cmd>, rec: seq<Byte>, open: bool)
    requires IsRecord(rec) && rec[3] > 0
    ensures
      var r, h := RecordReply(dev, hist, rec, open), HeaderAt(rec);
      h + 8 + 4 * rec[3] as int == |r| && r[h + 8..] == Answers(dev, hist + Opening(rec, open), ReadCmds(rec))
  {
    hide Opening, ReadCmds, Answers;
  }

  lemma WordWithin(s: seq<Byte>, from: nat, at: nat)
    requires from + at + 4 <= |s|
    ensures WordAt(s[from..], at) == WordAt(s, from + at)
  {
  }

  /** A probe is answered with a signature, the version with the response bit, both widths, and its own identifier. */
  lemma ProbeAnswered(dev: Device, input: seq<Byte>)
    requires |input| >= 8
    ensures var out := Master(dev, input).out;
            |out| >= 8 && out[..4] == [0x4E, 0x6F, 0x12, 0x44] && out[4..8] == input[4..8]
  {
    hide Run;
    var reply := ProbeReply(input[..8]);
    assert Master(dev, input).out == reply + Run(dev, input[8..], Line(false, [])).out;
    assert reply[4..] == input[..8][4..] == input[4..8];
    assert Master(dev, input).out[4..8] == reply[4..];
  }

  /** Fewer than eight bytes mean nothing; the probe alone causes no command and leaves the cycle down. */
  lemma ProbeAlone(dev: Device, input: seq<Byte>)
    requires |input| <= 8
    ensures
      var f := Master(dev, input);
      && f.used == |f.out| == (if |input| == 8 then 8 else 0) && f.st.bus == [] && !f.st.open
  {
    if |input| == 8 {
      assert !Complete(input[8..]);
    }
  }

  /** A record behind fully answered input adds its commands to the bus and its reply to the answers. */
  lemma OneMoreRecord(dev: Device, input: seq<Byte>, rec: seq<Byte>)
    requires |input| >= 8 && Master(dev, input).used == |input| && IsRecord(rec)
    ensures
      var f, g := Master(dev, input), Master(dev, input + rec);
      && g.used == |input + rec|
      && g.out == f.out + RecordReply(dev, f.st.bus, rec, f.st.open)
      && g.st.bus == f.st.bus + RecordCmds(rec, f.st.open)
      && g.st.open == (BitAnd(rec[0], 0x08) == 0)
  {
    FlagsAre(rec[0]);
    hide Master, RecordReply, RecordCmds, BitAnd, Flag;
    var f := Master(dev, input);
    MasterAppend(dev, input, rec);
    assert input[f.used..] + rec == rec + [];
    FoldCons(MasterStep(dev), rec, [], f.st);
    var reply := RecordReply(dev, f.st.bus, rec, f.st.open);
    assert reply + [] == reply;
  }
}
