/**
 * Byte enables and control registers of the windowed bridge in plain numbers: which masks are taken, which
 * bytes a write under one of them changes, and which registers cycles and configuration reads touch.
 */
module PcieMasks {
  import opened Bytes
  import opened Etherbone
  import opened PcieWindow

  // ---------------------------------------------------------------- masks

  /** `m` selects `w` neighbouring lanes, one, two or four, from a multiple of `w` on. */
  predicate RunOf(m: Byte, w: nat, low: nat) {
    (w == 1 || w == 2 || w == 4) && low + w <= 4 && low % w == 0 && m == (TwoTo(w) - 1) * TwoTo(low)
  }

  /** Some aligned run of lanes, and nothing else, is selected. */
  ghost predicate AlignedRun(m: Byte) {
    exists w: nat, low: nat :: RunOf(m, w, low)
  }

  lemma Twos()
    ensures TwoTo(0) == 1 && TwoTo(1) == 2 && TwoTo(2) == 4 && TwoTo(3) == 8 && TwoTo(4) == 16
  {
    assert TwoTo(2) == 2 * TwoTo(1);
    assert TwoTo(3) == 2 * TwoTo(2);
    assert TwoTo(4) == 2 * TwoTo(3);
  }

  /** The seven runs there are. */
  lemma RunsAre(m: Byte, w: nat, low: nat)
    requires RunOf(m, w, low)
    ensures
      || (w == 1 && ((low == 0 && m == 1) || (low == 1 && m == 2) || (low == 2 && m == 4) || (low == 3 && m == 8)))
      || (w == 2 && ((low == 0 && m == 3) || (low == 2 && m == 0xC)))
      || (w == 4 && low == 0 && m == 0xF)
  {
    Twos();
    if w == 1 {
      assert low == 0 || low == 1 || low == 2 || low == 3;
    } else if w == 2 {
      assert low == 0 || low == 1 || low == 2;
    } else {
      assert low == 0;
    }
  }

  lemma RunsFound(m: Byte)
    requires m == 1 || m == 2 || m == 4 || m == 8 || m == 3 || m == 0xC || m == 0xF
    ensures AlignedRun(m)
  {
    Twos();
    assert RunOf(1, 1, 0) && RunOf(2, 1, 1) && RunOf(4, 1, 2) && RunOf(8, 1, 3);
    assert RunOf(3, 2, 0) && RunOf(0xC, 2, 2) && RunOf(0xF, 4, 0);
  }

  /** A run of lanes selects those lanes. */
  lemma LanesOfRun(m: Byte, w: nat, low: nat, i: nat)
    requires RunOf(m, w, low) && i < 4
    ensures Lane(m, i) <==> low <= i < low + w
  {
    RunsAre(m, w, low);
    assert i == 0 || i == 1 || i == 2 || i == 3;
  }

  /**
   * `byteenable` puts a mask in force exactly if it selects an aligned run of one, two or four lanes, and leaves
   * the mask in force otherwise; nothing else changes it, and after probing all lanes are selected.
   */
  lemma MaskTakenExactly(hist: seq<Cmd>, c: Cmd)
    ensures Mask([]) == 0xF
    ensures Mask(hist + [c]) == if c.ByteEnable? && AlignedRun(c.mask) then c.mask else Mask(hist)
  {
    MaskOnce(hist, c);
    if c.ByteEnable? {
      if Legal(c.mask) {
        RunsFound(c.mask);
      } else if AlignedRun(c.mask) {
        var w: nat, low: nat :| RunOf(c.mask, w, low);
        RunsAre(c.mask, w, low);
        assert false;
      }
    }
  }

  // ---------------------------------------------------------------- bytes in memory

  /** Byte `i` of a word, counted from the least significant one. */
  lemma ByteFromLow(w: Word, i: nat)
    requires i < 4
    ensures ByteOf(w, i) == WordBytes(w)[3 - i]
  {
    WordBytesAre(w);
  }

  /** One more command: only a write to its word, in a lane of the mask in force, changes a byte. */
  lemma MemoryByte(init: Word -> Byte, hist: seq<Cmd>, c: Cmd, a: Word)
    ensures
      ByteAt(init, Accesses(hist + [c]), a)
      == if c.Write? && a - a % 4 == c.addr - c.addr % 4 && Lane(Mask(hist), a % 4)
         then WordBytes(c.data)[3 - a % 4] else ByteAt(init, Accesses(hist), a)
  {
    AccessesOnce(hist, c);
    ByteAtOnce(init, Accesses(hist), c, Mask(hist), a);
    if c.Write? {
      ByteFromLow(c.data, a % 4);
    }
  }

  /** A write under an aligned run of `w` lanes from `low` on changes these bytes of its word and no others. */
  lemma NarrowWrite(
    init: Word -> Byte, hist: seq<Cmd>, m: Byte, w: nat, low: nat, addr: Word, data: Word, a: Word)
    requires RunOf(m, w, low)
    ensures
      var word, after := addr - addr % 4, hist + [ByteEnable(m)] + [Write(addr, data)];
      ByteAt(init, Accesses(after), a)
      == if word + low <= a < word + low + w then WordBytes(data)[3 - a % 4] else ByteAt(init, Accesses(hist), a)
  {
    MaskTakenExactly(hist, ByteEnable(m));
    MemoryByte(init, hist, ByteEnable(m), a);
    MemoryByte(init, hist + [ByteEnable(m)], Write(addr, data), a);
    LanesOfRun(m, w, low, a % 4);
    hide Lane, Mask, Accesses, ByteAt, TwoTo;
    SameWord(addr, a, low, w);
  }

  lemma SameWord(addr: Word, a: Word, low: nat, w: nat)
    requires low + w <= 4
    ensures
      var word := addr - addr % 4;
      a - a % 4 == word && low <= a % 4 < low + w <==> word + low <= a < word + low + w
  {
    var q, r, p, s := addr / 4, addr % 4, a / 4, a % 4;
    assert addr == 4 * q + r && a == 4 * p + s;
  }

  lemma ByteOfWord(addr: Word, i: nat)
    requires i < 4
    ensures var a := addr - addr % 4 + i; 0 <= a < 0x1_0000_0000 && a % 4 == i && WordOf(a) == WordOf(addr)
  {
    var q, r := addr / 4, addr % 4;
    assert addr == 4 * q + r;
    assert (4 * q + i) % 4 == i;
  }

  /** A read gives the bytes in memory in the lanes of the mask in force, and zero in the others. */
  lemma ReadByte(init: Word -> Byte, hist: seq<Cmd>, addr: Word, i: nat)
    requires i < 4
    ensures
      var a := addr - addr % 4 + i;
      && 0 <= a < 0x1_0000_0000
      && WordBytes(FlatDevice(Ram(init))(hist + [Read(addr)]))[3 - i]
         == if Lane(Mask(hist), i) then ByteAt(init, Accesses(hist), a) else 0
  {
    hide Lane, Mask, Accesses, ByteAt, Answer, Ram, WordBytes, ByteOf;
    AnswerLane(init, hist, addr, i);
    ByteFromLow(Answer(Ram(init), hist + [Read(addr)]), i);
    ByteOfWord(addr, i);
  }

  /** A read right after such a write gives the bytes just written in its lanes, and zero in the others. */
  lemma NarrowReadBack(
    init: Word -> Byte, hist: seq<Cmd>, m: Byte, w: nat, low: nat, addr: Word, data: Word, i: nat)
    requires RunOf(m, w, low) && i < 4
    ensures
      var after := hist + [ByteEnable(m)] + [Write(addr, data)];
      WordBytes(FlatDevice(Ram(init))(after + [Read(addr)]))[3 - i]
      == if low <= i < low + w then WordBytes(data)[3 - i] else 0
  {
    hide Lane, Mask, Accesses, ByteAt, FlatDevice, Ram, WordBytes, RunOf, WordOf;
    var after := hist + [ByteEnable(m)] + [Write(addr, data)];
    MaskTakenExactly(hist, ByteEnable(m));
    MaskTakenExactly(hist + [ByteEnable(m)], Write(addr, data));
    ReadByte(init, after, addr, i);
    LanesOfRun(m, w, low, i);
    ByteOfWord(addr, i);
    NarrowWrite(init, hist, m, w, low, addr, data, addr - addr % 4 + i);
  }

  // ---------------------------------------------------------------- control registers

  /** Probing resets the card; a cycle is raised and dropped by one write each of the control register. */
  lemma CycleWrites(hist: seq<Cmd>)
    ensures Accesses([]) == [Control(0)]
    ensures Accesses(hist + [CycleOn]) == Accesses(hist) + [Control(0xC000_0000)]
    ensures Accesses(hist + [CycleOff]) == Accesses(hist) + [Control(0x4000_0000)]
  {
    AccessesOnce(hist, CycleOn);
    AccessesOnce(hist, CycleOff);
  }

  /** Four configuration addresses read a register each, the error flags and the address of the SDB; no other does. */
  lemma ConfigReads(target: Target, hist: seq<Cmd>, addr: Word)
    ensures
      var after := hist + [ReadCfg(addr)];
      if addr == 0 || addr == 4 || addr == 8 || addr == 12 then
        var offset := if addr == 0 then 8 else if addr == 4 then 12 else if addr == 8 then 24 else 28;
        && Accesses(after) == Accesses(hist) + [Status(offset)]
        && FlatDevice(target)(after) == target(Accesses(hist) + [Status(offset)])
      else Accesses(after) == Accesses(hist) && FlatDevice(target)(after) == 0
  {
    AccessesOnce(hist, ReadCfg(addr));
    assert Accesses(hist) + [] == Accesses(hist);
  }
}
