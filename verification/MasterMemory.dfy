/**
 * A master device file in front of a memory: where the bytes of a record end up, and that what one record
 * wrote another one reads back.
 */
module MasterMemory {
  import opened Bytes
  import opened Records
  import opened Etherbone
  import opened PcieWindow
  import opened PcieMasks
  import opened RecordMeaning

  /** The bytes of a word of a byte string. */
  lemma EncodeDecode(s: seq<Byte>, at: nat, i: nat)
    requires at + 4 <= |s| && i < 4
    ensures WordBytes(WordAt(s, at))[i] == s[at + i]
  {
    var w := WordAt(s, at);
    WordBytesAre(w);
    BytesOfJoin(s[at], s[at + 1], s[at + 2], s[at + 3]);
  }

  /** Address of the `k`-th word from `base` on. */
  function NthWord(base: Word, k: nat): Word {
    (base as int + 4 * k) % 0x1_0000_0000
  }

  /** Where data word `k` goes: to the base address with bit 0x02, else to the `k`-th word from there. */
  function Target(rec: seq<Byte>, k: nat): Word
    requires |rec| >= 8
  {
    if BitAnd(rec[0], 0x02) != 0 then WordAt(rec, 4) else NthWord(WordAt(rec, 4), k)
  }

  /** `a` is a byte of the word addressed by `addr`. */
  predicate InWord(a: Word, addr: Word) {
    a - a % 4 == addr - addr % 4
  }

  /** Byte `a`, which was `b`, after the first `n` data words: the last of them that goes where `a` is counts. */
  function Landed(rec: seq<Byte>, n: nat, a: Word, b: Byte): Byte
    requires n == 0 || 8 + 4 * n <= |rec|
  {
    if n == 0 then b
    else if InWord(a, Target(rec, n - 1)) then rec[4 + 4 * n + 3 - a % 4]
    else Landed(rec, n - 1, a, b)
  }

  /** A data word counts if no later one goes to the same place. */
  lemma {:induction false} LandedLast(rec: seq<Byte>, n: nat, a: Word, b: Byte, k: nat)
    requires 8 + 4 * n <= |rec| && k < n && InWord(a, Target(rec, k))
    requires forall j :: k < j < n ==> !InWord(a, Target(rec, j))
    ensures Landed(rec, n, a, b) == rec[8 + 4 * k + 3 - a % 4]
  {
    hide Target, InWord;
    if k < n - 1 {
      LandedLast(rec, n - 1, a, b, k);
    }
  }

  lemma {:induction false} LandedNowhere(rec: seq<Byte>, n: nat, a: Word, b: Byte)
    requires 8 + 4 * n <= |rec| && forall j :: 0 <= j < n ==> !InWord(a, Target(rec, j))
    ensures Landed(rec, n, a, b) == b
  {
    hide Target, InWord;
    if n > 0 {
      LandedNowhere(rec, n - 1, a, b);
    }
  }

  lemma FullMask(hist: seq<Cmd>)
    ensures Mask(hist + [ByteEnable(0xF)]) == 0xF
  {
    RunsFound(0xF);
    MaskTakenExactly(hist, ByteEnable(0xF));
  }

  lemma FullLanes(i: nat)
    requires i < 4
    ensures Lane(0xF, i)
  {
  }

  /** The write part of a record, byte by byte. */
  lemma {:induction false} WritesLand(init: Word -> Byte, h: seq<Cmd>, rec: seq<Byte>, n: nat, a: Word)
    requires IsRecord(rec) && n <= Written(rec) && Mask(h) == 0xF
    ensures n == 0 || 8 + 4 * n <= |rec|
    ensures
      var after := h + WritesUpTo(rec, n);
      Mask(after) == 0xF && ByteAt(init, Accesses(after), a) == Landed(rec, n, a, ByteAt(init, Accesses(h), a))
  {
    hide RecordLen, BitAnd, ByteAt, Accesses, Mask, WriteCmd, Target, InWord;
    if n == 0 {
      assert h + [] == h;
    } else {
      DataWithin(rec, n - 1);
      WritesLand(init, h, rec, n - 1, a);
      NextWrite(h, rec, n);
      OneLands(init, h + WritesUpTo(rec, n - 1), rec, n - 1, a);
    }
  }

  lemma NextWrite(h: seq<Cmd>, rec: seq<Byte>, n: nat)
    requires IsRecord(rec) && 0 < n <= rec[2] && BitAnd(rec[0], 0x04) == 0
    ensures h + WritesUpTo(rec, n) == h + WritesUpTo(rec, n - 1) + [WriteCmd(rec, n - 1)]
  {
    FlagsAre(rec[0]);
    hide Flag, BitAnd, WriteCmd, IsRecord;
    ConcatAssociative(h, WritesUpTo(rec, n - 1), [WriteCmd(rec, n - 1)]);
  }

  lemma OneLands(init: Word -> Byte, before: seq<Cmd>, rec: seq<Byte>, k: nat, a: Word)
    requires IsRecord(rec) && k < rec[2] && 8 + 4 * k + 4 <= |rec| && Mask(before) == 0xF
    ensures
      var after := before + [WriteCmd(rec, k)];
      && Mask(after) == 0xF
      && ByteAt(init, Accesses(after), a)
         == if InWord(a, Target(rec, k)) then rec[8 + 4 * k + 3 - a % 4] else ByteAt(init, Accesses(before), a)
  {
    WriteIs(rec, k);
    var c := WriteCmd(rec, k);
    MaskTakenExactly(before, c);
    hide Lane, ByteAt, Accesses, Mask, IsRecord, WriteCmd, AlignedRun;
    FullLanes(a % 4);
    MemoryByte(init, before, c, a);
    EncodeDecode(rec, 8 + 4 * k, 3 - a % 4);
    hide WordAt, WordBytes, BitAnd;
  }

  /** Reads and the end of a cycle change no byte, and no mask. */
  lemma {:induction false} QuietKeeps(init: Word -> Byte, h: seq<Cmd>, more: seq<Cmd>, a: Word)
    requires forall k :: 0 <= k < |more| ==> !more[k].Write? && !more[k].ByteEnable?
    ensures ByteAt(init, Accesses(h + more), a) == ByteAt(init, Accesses(h), a) && Mask(h + more) == Mask(h)
    decreases |more|
  {
    hide ByteAt, Accesses, Mask, Lane, AlignedRun;
    if more == [] {
      assert h + more == h;
    } else {
      var n := |more| - 1;
      QuietKeeps(init, h, more[..n], a);
      assert h + more == h + more[..n] + [more[n]];
      MemoryByte(init, h + more[..n], more[n], a);
      MaskTakenExactly(h + more[..n], more[n]);
    }
  }

  lemma {:induction false} ReadsQuiet(rec: seq<Byte>, n: nat)
    requires IsRecord(rec) && n <= rec[3]
    ensures forall k :: 0 <= k < n ==> !ReadsUpTo(rec, n)[k].Write? && !ReadsUpTo(rec, n)[k].ByteEnable?
  {
    hide WordAt, Flag;
    if n > 0 {
      ReadsQuiet(rec, n - 1);
    }
  }

  /** The commands of a record up to its `n`-th read, or all of them. */
  ghost predicate FromOpening(rec: seq<Byte>, open: bool, c: seq<Cmd>)
    requires IsRecord(rec)
  {
    c <= RecordCmds(rec, open) && |Opening(rec, open)| <= |c|
  }

  /** Behind its writes a record issues neither writes nor masks. */
  lemma BehindOpening(rec: seq<Byte>, open: bool, c: seq<Cmd>)
    requires IsRecord(rec) && FromOpening(rec, open, c)
    ensures
      var opening := Opening(rec, open);
      var more := c[|opening|..];
      c == opening + more && forall k :: 0 <= k < |more| ==> !more[k].Write? && !more[k].ByteEnable?
  {
    ReadsQuiet(rec, rec[3] as int);
    hide Opening, ReadsUpTo, Flag, IsRecord;
    var opening, all := Opening(rec, open), RecordCmds(rec, open);
    assert all[..|opening|] == opening;
    assert c == all[..|c|];
  }

  /** A memory after a record with all byte lanes, from the end of its writes on. */
  lemma RecordLands(init: Word -> Byte, hist: seq<Cmd>, rec: seq<Byte>, open: bool, c: seq<Cmd>, a: Word)
    requires IsRecord(rec) && rec[1] == 0xF && FromOpening(rec, open, c)
    ensures Mask(hist + c) == 0xF && (Written(rec) == 0 || 8 + 4 * Written(rec) <= |rec|)
    ensures ByteAt(init, Accesses(hist + c), a) == Landed(rec, Written(rec), a, ByteAt(init, Accesses(hist), a))
  {
    OpeningLands(init, hist, rec, open, a);
    BehindOpening(rec, open, c);
    hide Opening, Mask, ByteAt, Accesses, IsRecord, FromOpening;
    var opening := Opening(rec, open);
    QuietKeeps(init, hist + opening, c[|opening|..], a);
    ConcatAssociative(hist, opening, c[|opening|..]);
  }

  lemma OpeningLands(init: Word -> Byte, hist: seq<Cmd>, rec: seq<Byte>, open: bool, a: Word)
    requires IsRecord(rec) && rec[1] == 0xF
    ensures Written(rec) == 0 || 8 + 4 * Written(rec) <= |rec|
    ensures
      var after := hist + Opening(rec, open);
      && Mask(after) == 0xF
      && ByteAt(init, Accesses(after), a) == Landed(rec, Written(rec), a, ByteAt(init, Accesses(hist), a))
  {
    hide Mask, ByteAt, Accesses, RecordLen, BitAnd, Landed, WriteCmds;
    var front := if open then [] else [CycleOn];
    var h := hist + front + [ByteEnable(0xF)];
    QuietKeeps(init, hist, front, a);
    FullMask(hist + front);
    MemoryByte(init, hist + front, ByteEnable(0xF), a);
    assert hist + Opening(rec, open) == h + WriteCmds(rec);
    WritePartLands(init, h, rec, a);
  }

  lemma WritePartLands(init: Word -> Byte, h: seq<Cmd>, rec: seq<Byte>, a: Word)
    requires IsRecord(rec) && Mask(h) == 0xF
    ensures Written(rec) == 0 || 8 + 4 * Written(rec) <= |rec|
    ensures
      var after := h + WriteCmds(rec);
      && Mask(after) == 0xF
      && ByteAt(init, Accesses(after), a) == Landed(rec, Written(rec), a, ByteAt(init, Accesses(h), a))
  {
    FlagsAre(rec[0]);
    hide Mask, ByteAt, Accesses, RecordLen, BitAnd, Flag;
    if Written(rec) > 0 {
      WritesLand(init, h, rec, rec[2] as int, a);
    } else {
      assert WriteCmds(rec) == [] && h + [] == h;
    }
  }

  // ---------------------------------------------------------------- where the words of a record stand

  /** Byte `a` of the memory behind the bus after a record on top of `hist`. */
  ghost function After(init: Word -> Byte, hist: seq<Cmd>, rec: seq<Byte>, open: bool, a: Word): Byte
    requires IsRecord(rec)
  {
    ByteAt(init, Accesses(hist + RecordCmds(rec, open)), a)
  }

  lemma AllFromOpening(rec: seq<Byte>, open: bool)
    requires IsRecord(rec)
    ensures FromOpening(rec, open, RecordCmds(rec, open))
  {
    OpeningIs(rec, open);
  }

  /** Different words of a record without bit 0x02 go to different places. */
  lemma WordsApart(base: Word, j: nat, k: nat, a: Word)
    requires j < k < 0x100 && InWord(a, NthWord(base, j))
    ensures !InWord(a, NthWord(base, k))
  {
    PlacesApart(base, j, k);
    hide NthWord;
  }

  lemma PlacesApart(base: Word, j: nat, k: nat)
    requires j < k < 0x100
    ensures NthWord(base, k) - NthWord(base, j) >= 4 || NthWord(base, j) - NthWord(base, k) >= 4
  {
    var p, q := base as int + 4 * j, base as int + 4 * k;
    if q < 0x1_0000_0000 {
      assert NthWord(base, j) == p && NthWord(base, k) == q;
    } else if p < 0x1_0000_0000 {
      assert NthWord(base, j) == p && NthWord(base, k) == q - 0x1_0000_0000;
    } else {
      assert NthWord(base, j) == p - 0x1_0000_0000 && NthWord(base, k) == q - 0x1_0000_0000;
    }
  }

  lemma NoneLater(rec: seq<Byte>, k: nat, a: Word)
    requires |rec| >= 8 && BitAnd(rec[0], 0x02) == 0 && InWord(a, Target(rec, k))
    ensures forall j :: k < j < rec[2] ==> !InWord(a, Target(rec, j))
  {
    hide NthWord, InWord, BitAnd, WordAt;
    forall j | k < j < rec[2]
      ensures !InWord(a, Target(rec, j))
    {
      WordsApart(WordAt(rec, 4), k, j, a);
    }
  }

  /** Without bit 0x02 every data word of a record stands at its own place, byte for byte, most significant first. */
  lemma PlainRecordStands(
    init: Word -> Byte, hist: seq<Cmd>, rec: seq<Byte>, open: bool, k: nat, a: Word)
    requires IsRecord(rec) && rec[1] == 0xF && k < Written(rec) && BitAnd(rec[0], 0x02) == 0
    requires |rec| >= 8 && InWord(a, NthWord(WordAt(rec, 4), k))
    ensures 8 + 4 * k + 4 <= |rec| && After(init, hist, rec, open, a) == rec[8 + 4 * k + 3 - a % 4]
  {
    hide Mask, ByteAt, Accesses, IsRecord, BitAnd, FromOpening, RecordCmds, InWord, WordAt;
    AllFromOpening(rec, open);
    RecordLands(init, hist, rec, open, RecordCmds(rec, open), a);
    NoneLater(rec, k, a);
    LandedLast(rec, Written(rec), a, ByteAt(init, Accesses(hist), a), k);
  }

  /** With bit 0x02 the last data word stands at the base address. */
  lemma FifoRecordStands(init: Word -> Byte, hist: seq<Cmd>, rec: seq<Byte>, open: bool, a: Word)
    requires IsRecord(rec) && rec[1] == 0xF && Written(rec) > 0 && BitAnd(rec[0], 0x02) != 0
    requires |rec| >= 8 && InWord(a, WordAt(rec, 4))
    ensures
      var last := 4 + 4 * Written(rec);
      last + 4 <= |rec| && After(init, hist, rec, open, a) == rec[last + 3 - a % 4]
  {
    hide Mask, ByteAt, Accesses, IsRecord, BitAnd, FromOpening, RecordCmds, WordAt, InWord;
    AllFromOpening(rec, open);
    RecordLands(init, hist, rec, open, RecordCmds(rec, open), a);
    LandedLast(rec, Written(rec), a, ByteAt(init, Accesses(hist), a), Written(rec) - 1);
  }

  /** A byte that no data word goes to stays what it was; with bit 0x04 that is every byte. */
  lemma RestStays(init: Word -> Byte, hist: seq<Cmd>, rec: seq<Byte>, open: bool, a: Word)
    requires IsRecord(rec) && rec[1] == 0xF
    requires Written(rec) > 0 ==> |rec| >= 8 && forall k :: 0 <= k < Written(rec) ==> !InWord(a, Target(rec, k))
    ensures After(init, hist, rec, open, a) == ByteAt(init, Accesses(hist), a)
  {
    AllFromOpening(rec, open);
    RecordLands(init, hist, rec, open, RecordCmds(rec, open), a);
    hide Mask, ByteAt, Accesses, IsRecord, BitAnd, FromOpening, RecordCmds, Target;
    if Written(rec) > 0 {
      LandedNowhere(rec, Written(rec), a, ByteAt(init, Accesses(hist), a));
    }
  }

  // ---------------------------------------------------------------- written and read back

  lemma ReadsByte(init: Word -> Byte, hist: seq<Cmd>, addr: Word, a: Word)
    requires InWord(a, addr) && Mask(hist) == 0xF
    ensures WordBytes(FlatDevice(Ram(init))(hist + [Read(addr)]))[3 - a % 4] == ByteAt(init, Accesses(hist), a)
  {
    hide FlatDevice, Ram, Mask, ByteAt, Accesses, Lane, WordBytes;
    FullLanes(a % 4);
    ReadByte(init, hist, addr, a % 4);
  }

  /** Word `j` a record reads from a memory, byte by byte, as the memory is after the record's own writes. */
  lemma ReadsMemory(init: Word -> Byte, hist: seq<Cmd>, rec: seq<Byte>, open: bool, j: nat, at: nat, a: Word)
    requires IsRecord(rec) && rec[1] == 0xF && j < rec[3] && BitAnd(rec[0], 0x40) == 0
    requires at == HeaderAt(rec) + 8 + 4 * j && at + 4 <= |rec| && InWord(a, WordAt(rec, at))
    ensures RecordReply(FlatDevice(Ram(init)), hist, rec, open)[at + 3 - a % 4] == After(init, hist, rec, open, a)
  {
    hide FlatDevice, Ram, ByteAt, Accesses, RecordLen, BitAnd, RecordCmds, RecordReply, Opening, WordAt, Landed;
    hide FromOpening, InWord, WordBytes, Written, After;
    ReadAt(FlatDevice(Ram(init)), hist, rec, open, j, at);
    var c := RecordCmds(rec, open)[..|Opening(rec, open)| + j];
    ReadWhile(init, hist, rec, open, c, WordAt(rec, at), a);
    EncodeDecode(RecordReply(FlatDevice(Ram(init)), hist, rec, open), at, 3 - a % 4);
  }

  /** Anywhere behind the writes of a record a read sees the memory the record leaves. */
  lemma ReadWhile(
    init: Word -> Byte, hist: seq<Cmd>, rec: seq<Byte>, open: bool, c: seq<Cmd>, addr: Word, a: Word)
    requires IsRecord(rec) && rec[1] == 0xF && FromOpening(rec, open, c) && InWord(a, addr)
    ensures WordBytes(FlatDevice(Ram(init))(hist + c + [Read(addr)]))[3 - a % 4] == After(init, hist, rec, open, a)
  {
    hide FlatDevice, Ram, Mask, ByteAt, Accesses, RecordLen, BitAnd, RecordCmds, Opening, Landed;
    hide FromOpening, InWord, WordBytes, Written;
    AllFromOpening(rec, open);
    RecordLands(init, hist, rec, open, c, a);
    RecordLands(init, hist, rec, open, RecordCmds(rec, open), a);
    ReadsByte(init, hist + c, addr, a);
  }

  /** The answer to a read is the device's right after the record's commands up to that read. */
  lemma ReadAt(dev: Device, hist: seq<Cmd>, rec: seq<Byte>, open: bool, j: nat, at: nat)
    requires IsRecord(rec) && j < rec[3] && BitAnd(rec[0], 0x40) == 0 && at == HeaderAt(rec) + 8 + 4 * j
    ensures
      var n := |Opening(rec, open)| + j;
      && n <= |RecordCmds(rec, open)| && FromOpening(rec, open, RecordCmds(rec, open)[..n])
      && at + 4 <= |rec|
      && WordAt(RecordReply(dev, hist, rec, open), at)
         == dev(hist + RecordCmds(rec, open)[..n] + [Read(WordAt(rec, at))])
  {
    hide BitAnd, RecordCmds, RecordReply, Opening, WordAt, Written, RecordLen;
    CommandReads(rec, open, j);
    ReplyWords(dev, hist, rec, open, j);
    OpeningIs(rec, open);
    CommandsTo(hist, RecordCmds(rec, open), |Opening(rec, open)| + j);
  }

  lemma CommandsTo(hist: seq<Cmd>, cmds: seq<Cmd>, n: nat)
    requires n < |cmds|
    ensures hist + cmds[..n + 1] == hist + cmds[..n] + [cmds[n]]
  {
  }

  /**
   * Through the whole file: what a record writes to a memory, a later record of the same stream reads back word for
   * word, whatever else the two of them and the stream before them do.
   */
  lemma WrittenReadsBack(init: Word -> Byte, input: seq<Byte>, w: seq<Byte>, r: seq<Byte>, k: nat, j: nat)
    requires |input| >= 8 && Master(FlatDevice(Ram(init)), input).used == |input|
    requires IsRecord(w) && w[1] == 0xF && k < Written(w) && BitAnd(w[0], 0x02) == 0
    requires IsRecord(r) && r[1] == 0xF && r[2] == 0 && j < r[3] && BitAnd(r[0], 0x40) == 0
    requires |w| >= 8 + 4 * k + 4 && |r| >= 8 + 4 * j + 4
    requires WordAt(r, 8 + 4 * j) == NthWord(WordAt(w, 4), k)
    ensures
      var out, at := Master(FlatDevice(Ram(init)), input + w + r).out, |input| + |w| + 8 + 4 * j;
      at + 4 <= |out| && WordAt(out, at) == WordAt(w, 8 + 4 * k)
  {
    var dev := FlatDevice(Ram(init));
    MasterLength(dev, input);
    OneMoreRecord(dev, input, w);
    MasterLength(dev, input + w);
    OneMoreRecord(dev, input + w, r);
    hide Master, FlatDevice, Ram, RecordReply, RecordCmds, RecordLen, BitAnd, WordAt;
    var f, g := Master(dev, input), Master(dev, input + w);
    var reply := RecordReply(dev, g.st.bus, r, g.st.open);
    WordBack(init, f.st, w, r, k, j);
    WordOfTail(g.out, reply, 8 + 4 * j);
  }

  lemma WordOfTail(front: seq<Byte>, tail: seq<Byte>, at: nat)
    requires at + 4 <= |tail|
    ensures WordAt(front + tail, |front| + at) == WordAt(tail, at)
  {
  }

  lemma WordBack(init: Word -> Byte, l: Line, w: seq<Byte>, r: seq<Byte>, k: nat, j: nat)
    requires IsRecord(w) && w[1] == 0xF && k < Written(w) && BitAnd(w[0], 0x02) == 0
    requires IsRecord(r) && r[1] == 0xF && r[2] == 0 && j < r[3] && BitAnd(r[0], 0x40) == 0
    requires |w| >= 8 + 4 * k + 4 && |r| >= 8 + 4 * j + 4
    requires WordAt(r, 8 + 4 * j) == NthWord(WordAt(w, 4), k)
    ensures
      var reply := RecordReply(FlatDevice(Ram(init)), l.bus + RecordCmds(w, l.open), r, BitAnd(w[0], 0x08) == 0);
      WordAt(reply, 8 + 4 * j) == WordAt(w, 8 + 4 * k)
  {
    hide FlatDevice, Ram, RecordReply, RecordCmds, RecordLen, BitAnd, InWord;
    var addr := WordAt(r, 8 + 4 * j);
    ByteBack(init, l, w, r, k, j, ByteIn(addr, 0));
    ByteBack(init, l, w, r, k, j, ByteIn(addr, 1));
    ByteBack(init, l, w, r, k, j, ByteIn(addr, 2));
    ByteBack(init, l, w, r, k, j, ByteIn(addr, 3));
  }

  lemma ByteBack(init: Word -> Byte, l: Line, w: seq<Byte>, r: seq<Byte>, k: nat, j: nat, a: Word)
    requires IsRecord(w) && w[1] == 0xF && k < Written(w) && BitAnd(w[0], 0x02) == 0
    requires IsRecord(r) && r[1] == 0xF && r[2] == 0 && j < r[3] && BitAnd(r[0], 0x40) == 0
    requires |w| >= 8 + 4 * k + 4 && |r| >= 8 + 4 * j + 4
    requires InWord(a, WordAt(r, 8 + 4 * j)) && WordAt(r, 8 + 4 * j) == NthWord(WordAt(w, 4), k)
    ensures
      var reply := RecordReply(FlatDevice(Ram(init)), l.bus + RecordCmds(w, l.open), r, BitAnd(w[0], 0x08) == 0);
      reply[8 + 4 * j + 3 - a % 4] == w[8 + 4 * k + 3 - a % 4]
  {
    assert Written(r) == 0 && HeaderAt(r) == 0;
    hide FlatDevice, Ram, RecordReply, RecordCmds, RecordLen, BitAnd, WordAt, InWord, ByteAt, Accesses, Target;
    hide Written, HeaderAt, NthWord, IsRecord, Mask, Opening;
    var between, open := l.bus + RecordCmds(w, l.open), BitAnd(w[0], 0x08) == 0;
    ReadsMemory(init, between, r, open, j, 8 + 4 * j, a);
    PlainRecordStands(init, l.bus, w, l.open, k, a);
    RestStays(init, between, r, open, a);
  }

  /** Byte `i` of a word, counted from its lowest address. */
  function ByteIn(addr: Word, i: nat): (a: Word)
    requires i < 4
    ensures a % 4 == i && InWord(a, addr)
  {
    ByteOfWord(addr, i);
    addr - addr % 4 + i
  }
}
