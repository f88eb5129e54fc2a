/**
 * Bus access through a 64 KiB window: the driver of a PCI express carrier keeps the window register and
 * the byte lanes of the last legal mask in cached fields, and turns every word access into one 8, 16 or
 * 32-bit access of the mapped window. Over every run this is a flat 32-bit address space accessed under
 * byte enables. Little-endian host.
 */
module PcieWindow {
  import opened Bytes
  import opened Etherbone

  // ---------------------------------------------------------------- the flat address space

  /**
   * What happens on the card: bus accesses, with an aligned address, the selected byte lanes and data in
   * these; writes of the cycle control register; reads of the other control registers.
   */
  datatype Access =
    | Store(addr: Word, sel: Byte, data: Word)
    | Load(addr: Word, sel: Byte)
    | Control(value: Word)
    | Status(offset: nat)

  /** The card's answer after a history that ends in a load or a status read; its state may depend on all of it. */
  type Target = seq<Access> -> Word

  /** The masks `byteenable` acts upon: aligned bytes, halves and the whole word. */
  predicate Legal(mask: Byte) {
    mask == 1 || mask == 2 || mask == 4 || mask == 8 || mask == 3 || mask == 0xC || mask == 0xF
  }

  /** The mask in force: the last legal one. */
  function Mask(hist: seq<Cmd>): (mask: Byte)
    ensures Legal(mask)
  {
    if hist == [] then 0xF
    else
      var last := hist[|hist| - 1];
      if last.ByteEnable? && Legal(last.mask) then last.mask else Mask(hist[..|hist| - 1])
  }

  predicate Lane(sel: Byte, i: nat)
    requires i < 4
  {
    if i == 0 then Flag(sel, 1) else if i == 1 then Flag(sel, 2) else if i == 2 then Flag(sel, 4) else Flag(sel, 8)
  }

  /** Byte `i` of a word, counted from the least significant one. */
  function ByteOf(w: Word, i: nat): Byte
    requires i < 4
  {
    if i == 0 then w % 0x100
    else if i == 1 then (w / 0x100) % 0x100
    else if i == 2 then (w / 0x1_0000) % 0x100
    else w / 0x100_0000
  }

  /** Byte `i` of `w` if its lane is selected. */
  function Kept(w: Word, sel: Byte, i: nat): Byte
    requires i < 4
  {
    if Lane(sel, i) then ByteOf(w, i) else 0
  }

  /** `w` with the lanes outside `sel` cleared. */
  function Masked(w: Word, sel: Byte): Word {
    Join(Kept(w, sel, 3), Kept(w, sel, 2), Kept(w, sel, 1), Kept(w, sel, 0))
  }

  /** `addr & ~3` */
  function WordOf(addr: Word): (a: Word)
    ensures a <= addr && a + 4 <= 0x1_0000_0000
  {
    addr - addr % 4
  }

  const ERROR_FLAG_HIGH: nat := 8
  const ERROR_FLAG_LOW: nat := 12
  const WINDOW_OFFSET_LOW: nat := 20
  const SDWB_ADDRESS_HIGH: nat := 24
  const SDWB_ADDRESS_LOW: nat := 28
  const CONTROL_REGISTER_HIGH: nat := 0

  /** What one command means under a mask, word by word, without any window. */
  function Meaning(c: Cmd, mask: Byte): seq<Access> {
    match c
    case CycleOn => [Control(0xC000_0000)]
    case CycleOff => [Control(0x4000_0000)]
    case ByteEnable(_) => []
    case Write(addr, data) => [Store(WordOf(addr), mask, Masked(data, mask))]
    case Read(addr) => [Load(WordOf(addr), mask)]
    case ReadCfg(addr) =>
      if addr == 0 then [Status(ERROR_FLAG_HIGH)]
      else if addr == 4 then [Status(ERROR_FLAG_LOW)]
      else if addr == 8 then [Status(SDWB_ADDRESS_HIGH)]
      else if addr == 12 then [Status(SDWB_ADDRESS_LOW)]
      else []
  }

  /** Everything that happens on the card: it is reset once, then every command means one access. */
  function Accesses(hist: seq<Cmd>): seq<Access> {
    if hist == [] then [Control(0)]
    else
      var before := hist[..|hist| - 1];
      Accesses(before) + Meaning(hist[|hist| - 1], Mask(before))
  }

  /** The answer to the last command of a history, as a flat address space gives it. */
  function Answer(target: Target, hist: seq<Cmd>): Word {
    if hist == [] then 0
    else
      var last := hist[|hist| - 1];
      if last.Read? then Masked(target(Accesses(hist)), Mask(hist))
      else if last.ReadCfg? && Meaning(last, 0) != [] then target(Accesses(hist))
      else 0
  }

  /** The card as the device the Etherbone engine talks to. */
  function FlatDevice(target: Target): Device {
    hist => Answer(target, hist)
  }

  lemma MaskOnce(hist: seq<Cmd>, c: Cmd)
    ensures Mask(hist + [c]) == if c.ByteEnable? && Legal(c.mask) then c.mask else Mask(hist)
  {
    assert (hist + [c])[..|hist|] == hist;
  }

  lemma AccessesOnce(hist: seq<Cmd>, c: Cmd)
    ensures Accesses(hist + [c]) == Accesses(hist) + Meaning(c, Mask(hist))
  {
    assert (hist + [c])[..|hist|] == hist;
  }

  // ---------------------------------------------------------------- the card

  /** Multiplier of a shift by whole bytes, `1 << bits`. */
  function PowerOf2(bits: nat): (p: nat)
    requires bits == 0 || bits == 8 || bits == 16 || bits == 24 || bits == 32
    ensures p > 0
  {
    if bits == 0 then 1 else 0x100 * PowerOf2(bits - 8)
  }

  lemma Powers()
    ensures PowerOf2(0) == 1 && PowerOf2(8) == 0x100 && PowerOf2(16) == 0x1_0000
    ensures PowerOf2(24) == 0x100_0000 && PowerOf2(32) == 0x1_0000_0000
  {
    assert PowerOf2(8) == 0x100 * PowerOf2(0);
    assert PowerOf2(16) == 0x100 * PowerOf2(8);
    assert PowerOf2(24) == 0x100 * PowerOf2(16);
  }

  /** Byte enables of an access of `width` bytes, `low` bytes behind a word boundary. */
  function Lanes(width: nat, low: nat): Byte {
    if width == 4 then 0xF
    else if width == 2 then (if low == 0 then 3 else 0xC)
    else if low == 0 then 1 else if low == 1 then 2 else if low == 2 then 4 else 8
  }

  predicate Fits(width: nat, low: nat) {
    (width == 1 && low < 4) || (width == 2 && (low == 0 || low == 2)) || (width == 4 && low == 0)
  }

  /** The hardware: an access at offset `o` of the window hits bus address `window + o`. */
  class Card {
    const target: Target
    var window: Word
    var log: seq<Access>

    constructor (target: Target, window: Word)
      ensures this.target == target && this.window == window && log == []
    {
      this.target, this.window, log := target, window, [];
    }

    /** `iowrite32` to a control register. */
    method WriteRegister(offset: nat, value: Word)
      requires offset == WINDOW_OFFSET_LOW || offset == CONTROL_REGISTER_HIGH
      modifies this
      ensures window == if offset == WINDOW_OFFSET_LOW then value else old(window)
      ensures log == old(log) + if offset == WINDOW_OFFSET_LOW then [] else [Control(value)]
    {
      if offset == WINDOW_OFFSET_LOW {
        window := value;
      } else {
        log := log + [Control(value)];
      }
    }

    /** `ioread32` from a control register. */
    method ReadRegister(offset: nat) returns (value: Word)
      modifies this`log
      ensures log == old(log) + [Status(offset)] && value == target(log)
    {
      log := log + [Status(offset)];
      value := target(log);
    }

    /** `iowrite8`, `iowrite16` or `iowrite32` into the window. */
    method IoWrite(offset: nat, width: nat, value: nat)
      requires window % 0x1_0000 == 0 && offset < 0x1_0000 && Fits(width, offset % 4)
      requires value < PowerOf2(8 * width)
      modifies this`log
      ensures log == old(log) +
              [Store(WordOf(window + offset), Lanes(width, offset % 4), Moved(width, offset % 4, value))]
    {
      var low := offset % 4;
      log := log + [Store(WordOf(window + offset), Lanes(width, low), Moved(width, low, value))];
    }

    /** `ioread8`, `ioread16` or `ioread32` from the window. */
    method IoRead(offset: nat, width: nat) returns (value: nat)
      requires window % 0x1_0000 == 0 && offset < 0x1_0000 && Fits(width, offset % 4)
      modifies this`log
      ensures log == old(log) + [Load(WordOf(window + offset), Lanes(width, offset % 4))]
      ensures value == Fetched(width, offset % 4, target(log))
    {
      var low := offset % 4;
      log := log + [Load(WordOf(window + offset), Lanes(width, low))];
      value := Fetched(width, low, target(log));
    }
  }

  /** A value of `width` bytes put into its lanes. */
  function Moved(width: nat, low: nat, value: nat): Word
    requires Fits(width, low) && value < PowerOf2(8 * width)
  {
    Powers();
    value * PowerOf2(8 * low)
  }

  /** `width` bytes taken out of their lanes. */
  function Fetched(width: nat, low: nat, w: Word): (v: nat)
    requires Fits(width, low)
    ensures v < PowerOf2(8 * width)
  {
    Powers();
    (w / PowerOf2(8 * low)) % PowerOf2(8 * width)
  }

  /** The bytes of a word, and the word without its lowest ones. */
  lemma Shifts(w: Word)
    ensures var b0, b1, b2, b3 := ByteOf(w, 0), ByteOf(w, 1), ByteOf(w, 2), ByteOf(w, 3);
            && w == b0 + 0x100 * b1 + 0x1_0000 * b2 + 0x100_0000 * b3
            && w / 0x100 == b1 + 0x100 * b2 + 0x1_0000 * b3
            && w / 0x1_0000 == b2 + 0x100 * b3
            && w / 0x100_0000 == b3
  {
    var w1, w2, w3 := w / 0x100, w / 0x1_0000, w / 0x100_0000;
    assert w == w1 * 0x100 + w % 0x100;
    assert w1 / 0x100 == w2 && w1 == w2 * 0x100 + w1 % 0x100;
    assert w2 / 0x100 == w3 && w2 == w3 * 0x100 + w2 % 0x100;
  }

  lemma Truncated(v: nat, rest: nat)
    requires v < 0x1_0000
    ensures (v + 0x1_0000 * rest) % 0x1_0000 == v
  {
  }

  /** The lanes of a word, taken down and truncated, are its bytes there. */
  lemma FetchedBytes(w: Word, width: nat, low: nat)
    requires Fits(width, low)
    ensures Fetched(width, low, w)
         == if width == 4 then w
            else if width == 2 then ByteOf(w, low) + 0x100 * ByteOf(w, low + 1)
            else ByteOf(w, low)
  {
    Powers();
    Shifts(w);
    if width == 2 {
      Truncated(ByteOf(w, low) + 0x100 * ByteOf(w, low + 1),
                if low == 0 then ByteOf(w, 2) + 0x100 * ByteOf(w, 3) else 0);
    }
  }

  /** The lanes an access selects are those it covers. */
  lemma LanesCovered(width: nat, low: nat, i: nat)
    requires Fits(width, low) && i < 4
    ensures Lane(Lanes(width, low), i) <==> low <= i < low + width
  {
  }

  lemma MaskedBytes(w: Word, width: nat, low: nat)
    requires Fits(width, low)
    ensures Masked(w, Lanes(width, low))
         == if width == 4 then w
            else if width == 2 then (ByteOf(w, low) + 0x100 * ByteOf(w, low + 1)) * PowerOf2(8 * low)
            else ByteOf(w, low) * PowerOf2(8 * low)
  {
    Powers();
    Shifts(w);
    LanesCovered(width, low, 0);
    LanesCovered(width, low, 1);
    LanesCovered(width, low, 2);
    LanesCovered(width, low, 3);
    hide Lane, Lanes, ByteOf, PowerOf2;
    if width == 2 {
      assert low == 0 || low == 2;
    } else if width == 1 {
      assert low == 0 || low == 1 || low == 2 || low == 3;
    }
  }

  /** Shifting a word down, truncating it and putting it into its lanes clears the other lanes. */
  lemma ShiftedStore(data: Word, width: nat, low: nat)
    requires Fits(width, low)
    ensures var v := (data / PowerOf2(8 * low)) % PowerOf2(8 * width);
            v < PowerOf2(8 * width) && Moved(width, low, v) == Masked(data, Lanes(width, low))
  {
    FetchedBytes(data, width, low);
    MaskedBytes(data, width, low);
    Powers();
    var v := Fetched(width, low, data);
    assert Moved(width, low, v) == v * PowerOf2(8 * low);
    assert v == (data / PowerOf2(8 * low)) % PowerOf2(8 * width);
    hide *;
  }

  /** Shifting fetched bytes up again gives the word with the other lanes cleared. */
  lemma ShiftedLoad(w: Word, width: nat, low: nat)
    requires Fits(width, low)
    ensures Fetched(width, low, w) * PowerOf2(8 * low) == Masked(w, Lanes(width, low))
  {
    FetchedBytes(w, width, low);
    MaskedBytes(w, width, low);
    Powers();
    hide Masked, Lanes, ByteOf;
  }

  /** The window and the offset within it make up the address. */
  lemma Address(addr: Word, low: nat)
    requires low < 4
    ensures var high, offset := addr - addr % 0x1_0000, addr % 0x1_0000 - addr % 4 + low;
            && high % 0x1_0000 == 0 && 0 <= offset < 0x1_0000 && offset % 4 == low
            && high + offset < 0x1_0000_0000 && WordOf(high + offset) == WordOf(addr)
  {
    var h, q, r := addr / 0x1_0000, addr % 0x1_0000 / 4, addr % 4;
    assert addr == 0x1_0000 * h + 4 * q + r;
    Parts(h, q, r);
    Parts(h, 0, 0);
    Parts(h, q, low);
    Parts(0, q, low);
  }

  /** An address put together from its window, the word within, and the byte within. */
  lemma Parts(h: nat, q: nat, r: nat)
    requires q < 0x4000 && r < 4
    ensures var a := 0x1_0000 * h + 4 * q + r; a % 0x1_0000 == 4 * q + r && a % 4 == r
  {
  }

  // ---------------------------------------------------------------- the driver

  /** `struct pcie_wb_dev` */
  class Bridge {
    const card: Card
    var windowOffset: Word
    var lowAddr: nat
    var width: nat
    var shift: nat
    ghost var hist: seq<Cmd>

    /** The card's window is where the cache says, and its bus saw what the commands mean. */
    ghost predicate Valid()
      reads this, card
    {
      && card.window == windowOffset && windowOffset % 0x1_0000 == 0
      && Fits(width, lowAddr) && shift == 8 * lowAddr && Lanes(width, lowAddr) == Mask(hist)
      && card.log == Accesses(hist)
    }

    /** `probe`: both registers are initialised, whatever they held. */
    constructor (card: Card)
      requires card.log == []
      modifies card
      ensures this.card == card && Valid() && hist == []
    {
      this.card := card;
      windowOffset, lowAddr, width, shift := 0, 0, 4, 0;
      hist := [];
      new;
      card.WriteRegister(WINDOW_OFFSET_LOW, 0);
      card.WriteRegister(CONTROL_REGISTER_HIGH, 0);
    }

    /** `wb_cycle`, the mutex aside. */
    method Cycle(on: bool)
      requires Valid()
      modifies this`hist, card
      ensures Valid() && hist == old(hist) + [if on then CycleOn else CycleOff]
    {
      card.WriteRegister(CONTROL_REGISTER_HIGH, (if on then 0x8000_0000 else 0) + 0x4000_0000);
      ghost var c := if on then CycleOn else CycleOff;
      MaskOnce(hist, c);
      AccessesOnce(hist, c);
      hist := hist + [c];
    }

    /** `wb_byteenable`: a strange mask is ignored. */
    method Enable(be: Byte)
      requires Valid()
      modifies this`hist, this`width, this`shift, this`lowAddr
      ensures Valid() && hist == old(hist) + [ByteEnable(be)]
    {
      if be == 0x1 {
        width, shift, lowAddr := 1, 0, 0;
      } else if be == 0x2 {
        width, shift, lowAddr := 1, 8, 1;
      } else if be == 0x4 {
        width, shift, lowAddr := 1, 16, 2;
      } else if be == 0x8 {
        width, shift, lowAddr := 1, 24, 3;
      } else if be == 0x3 {
        width, shift, lowAddr := 2, 0, 0;
      } else if be == 0xC {
        width, shift, lowAddr := 2, 16, 2;
      } else if be == 0xF {
        width, shift, lowAddr := 4, 0, 0;
      }
      MaskOnce(hist, ByteEnable(be));
      AccessesOnce(hist, ByteEnable(be));
      hist := hist + [ByteEnable(be)];
    }

    /** Moves the window unless it is there already. */
    method Slide(addr: Word)
      requires Valid()
      modifies this`windowOffset, card
      ensures Valid() && windowOffset == addr - addr % 0x1_0000
    {
      Address(addr, 0);
      var offset := addr - addr % 0x1_0000;
      if offset != windowOffset {
        card.WriteRegister(WINDOW_OFFSET_LOW, offset);
        windowOffset := offset;
      }
    }

    /** `wb_write` */
    method Put(addr: Word, data: Word)
      requires Valid()
      modifies this`windowOffset, this`hist, card
      ensures Valid() && hist == old(hist) + [Write(addr, data)]
    {
      hide Masked, Mask, WordOf, Accesses, Lanes, PowerOf2, Moved, Fetched, Answer;
      Slide(addr);
      Powers();
      Address(addr, lowAddr);
      ShiftedStore(data, width, lowAddr);
      var offset := addr % 0x1_0000 - addr % 4;
      if width == 4 {
        card.IoWrite(offset, 4, data);
      } else if width == 2 {
        card.IoWrite(offset + lowAddr, 2, (data / PowerOf2(shift)) % 0x1_0000);
      } else if width == 1 {
        card.IoWrite(offset + lowAddr, 1, (data / PowerOf2(shift)) % 0x100);
      }
      MaskOnce(hist, Write(addr, data));
      AccessesOnce(hist, Write(addr, data));
      hist := hist + [Write(addr, data)];
    }

    /** `wb_read` */
    method Get(addr: Word) returns (out: Word)
      requires Valid()
      modifies this`windowOffset, this`hist, card
      ensures Valid() && hist == old(hist) + [Read(addr)]
      ensures out == Answer(card.target, hist)
    {
      hide Masked, Mask, WordOf, Accesses, Lanes, PowerOf2, Moved, Fetched;
      Slide(addr);
      Powers();
      Address(addr, lowAddr);
      var offset, raw := addr % 0x1_0000 - addr % 4, 0;
      if width == 4 {
        raw := card.IoRead(offset, 4);
      } else if width == 2 {
        raw := card.IoRead(offset + lowAddr, 2);
      } else if width == 1 {
        raw := card.IoRead(offset + lowAddr, 1);
      }
      ShiftedLoad(card.target(card.log), width, lowAddr);
      out := raw * PowerOf2(shift);
      MaskOnce(hist, Read(addr));
      AccessesOnce(hist, Read(addr));
      hist := hist + [Read(addr)];
    }

    /** `wb_read_cfg` */
    method GetConfig(addr: Word) returns (out: Word)
      requires Valid()
      modifies this`hist, card
      ensures Valid() && hist == old(hist) + [ReadCfg(addr)]
      ensures out == Answer(card.target, hist)
    {
      hide Masked, Mask, Lanes, WordOf, PowerOf2;
      MaskOnce(hist, ReadCfg(addr));
      AccessesOnce(hist, ReadCfg(addr));
      hist := hist + [ReadCfg(addr)];
      if addr == 0 {
        out := card.ReadRegister(ERROR_FLAG_HIGH);
      } else if addr == 4 {
        out := card.ReadRegister(ERROR_FLAG_LOW);
      } else if addr == 8 {
        out := card.ReadRegister(SDWB_ADDRESS_HIGH);
      } else if addr == 12 {
        out := card.ReadRegister(SDWB_ADDRESS_LOW);
      } else {
        out := 0;
      }
    }
  }

  // ---------------------------------------------------------------- whole runs

  /**
   * Any run of bus commands on a freshly probed card: the card saw exactly what the commands mean in a
   * flat address space, and every read was answered as that space answers it.
   */
  method Drive(target: Target, window: Word, cmds: seq<Cmd>) returns (log: seq<Access>, answers: seq<Word>)
    ensures log == Accesses(cmds)
    ensures |answers| == |cmds|
    ensures forall k :: 0 <= k < |cmds| && (cmds[k].Read? || cmds[k].ReadCfg?) ==>
              answers[k] == FlatDevice(target)(cmds[..k + 1])
  {
    hide Answer, Accesses, Mask;
    var card := new Card(target, window);
    var bridge := new Bridge(card);
    answers := [];
    var i := 0;
    while i < |cmds|
      invariant bridge.card == card && card.target == target && bridge.Valid()
      invariant 0 <= i <= |cmds| == i + |cmds[i..]| && |answers| == i && bridge.hist == cmds[..i]
      invariant forall k :: 0 <= k < i && (cmds[k].Read? || cmds[k].ReadCfg?) ==>
                  answers[k] == FlatDevice(target)(cmds[..k + 1])
    {
      assert cmds[..i + 1] == cmds[..i] + [cmds[i]];
      var out: Word := 0;
      match cmds[i] {
        case CycleOn => bridge.Cycle(true);
        case CycleOff => bridge.Cycle(false);
        case ByteEnable(mask) => bridge.Enable(mask);
        case Write(addr, data) => bridge.Put(addr, data);
        case Read(addr) => out := bridge.Get(addr);
        case ReadCfg(addr) => out := bridge.GetConfig(addr);
      }
      answers := answers + [out];
      i := i + 1;
    }
    assert cmds[..i] == cmds;
    log := card.log;
  }

  // ---------------------------------------------------------------- memory behind the bus

  /** Byte `a` of a memory after the stores of a log. */
  function ByteAt(init: Word -> Byte, log: seq<Access>, a: Word): Byte {
    if log == [] then init(a)
    else
      var last := log[|log| - 1];
      if last.Store? && WordOf(last.addr) == WordOf(a) && Lane(last.sel, a % 4) then ByteOf(last.data, a % 4)
      else ByteAt(init, log[..|log| - 1], a)
  }

  function WordIn(init: Word -> Byte, log: seq<Access>, addr: Word): Word {
    var a := WordOf(addr);
    Join(ByteAt(init, log, a + 3), ByteAt(init, log, a + 2), ByteAt(init, log, a + 1), ByteAt(init, log, a))
  }

  /** A memory, seen as a target. */
  function Ram(init: Word -> Byte): Target {
    (log: seq<Access>) => if log != [] && log[|log| - 1].Load? then WordIn(init, log, log[|log| - 1].addr) else 0
  }

  /** Command `k` writes byte `a`: its word, in a lane of the mask then in force. */
  predicate Covers(hist: seq<Cmd>, k: nat, a: Word)
    requires k < |hist|
  {
    hist[k].Write? && WordOf(hist[k].addr) == WordOf(a) && Lane(Mask(hist[..k]), a % 4)
  }

  /** `b` is what the last write of byte `a` left there. */
  ghost predicate LastWritten(init: Word -> Byte, hist: seq<Cmd>, a: Word, b: Byte) {
    || ((forall k :: 0 <= k < |hist| ==> !Covers(hist, k, a)) && b == init(a))
    || (exists k :: 0 <= k < |hist| && Covers(hist, k, a) && b == ByteOf(hist[k].data, a % 4)
                  && forall j :: k < j < |hist| ==> !Covers(hist, j, a))
  }

  lemma BytesOfJoin(b3: Byte, b2: Byte, b1: Byte, b0: Byte)
    ensures var w := Join(b3, b2, b1, b0);
            ByteOf(w, 0) == b0 && ByteOf(w, 1) == b1 && ByteOf(w, 2) == b2 && ByteOf(w, 3) == b3
  {
    var w := Join(b3, b2, b1, b0);
    assert w / 0x100 == b1 + 0x100 * b2 + 0x1_0000 * b3;
    assert w / 0x1_0000 == b2 + 0x100 * b3;
    assert w / 0x100_0000 == b3;
  }

  lemma LaneOfMasked(w: Word, sel: Byte, i: nat)
    requires i < 4
    ensures ByteOf(Masked(w, sel), i) == Kept(w, sel, i)
  {
    hide ByteOf, Kept;
    BytesOfJoin(Kept(w, sel, 3), Kept(w, sel, 2), Kept(w, sel, 1), Kept(w, sel, 0));
  }

  /** Only a store to its word in its lane changes a byte. */
  lemma ByteAtOnce(init: Word -> Byte, log: seq<Access>, c: Cmd, mask: Byte, a: Word)
    ensures ByteAt(init, log + Meaning(c, mask), a)
         == if c.Write? && WordOf(c.addr) == WordOf(a) && Lane(mask, a % 4) then ByteOf(c.data, a % 4)
            else ByteAt(init, log, a)
  {
    hide Masked, Lane, ByteOf;
    var m := Meaning(c, mask);
    if m == [] {
      assert log + m == log;
    } else {
      assert (log + m)[..|log|] == log;
      if c.Write? {
        LaneOfMasked(c.data, mask, a % 4);
        assert WordOf(WordOf(c.addr)) == WordOf(c.addr);
      }
    }
  }

  lemma {:induction false} MemoryKeepsLastWrite(init: Word -> Byte, hist: seq<Cmd>, a: Word)
    ensures LastWritten(init, hist, a, ByteAt(init, Accesses(hist), a))
    decreases |hist|
  {
    hide Mask, Masked, Lane, ByteOf, ByteAt, Meaning, WordOf;
    if hist == [] {
      ByteAtStart(init, a);
    } else {
      var n := |hist| - 1;
      var before, c := hist[..n], hist[n];
      MemoryKeepsLastWrite(init, before, a);
      ByteAtOnce(init, Accesses(before), c, Mask(before), a);
      forall k | 0 <= k < n
        ensures Covers(hist, k, a) == Covers(before, k, a)
      {
        assert hist[..k] == before[..k];
      }
      assert Covers(hist, n, a) == (c.Write? && WordOf(c.addr) == WordOf(a) && Lane(Mask(before), a % 4));
      hide Covers, Accesses;
    }
  }

  lemma ByteAtStart(init: Word -> Byte, a: Word)
    ensures ByteAt(init, Accesses([]), a) == init(a)
  {
    assert [Control(0)][..0] == [];
  }

  /** The answer to a read, lane by lane. */
  lemma AnswerLane(init: Word -> Byte, hist: seq<Cmd>, addr: Word, i: nat)
    requires i < 4
    ensures ByteOf(Answer(Ram(init), hist + [Read(addr)]), i)
         == if Lane(Mask(hist), i) then ByteAt(init, Accesses(hist), WordOf(addr) + i) else 0
  {
    var a := WordOf(addr);
    var log := Accesses(hist) + [Load(a, Mask(hist))];
    MaskOnce(hist, Read(addr));
    AccessesOnce(hist, Read(addr));
    assert WordOf(a) == a && log[|log| - 1] == Load(a, Mask(hist));
    assert Answer(Ram(init), hist + [Read(addr)]) == Masked(WordIn(init, log, a), Mask(hist));
    hide Mask, Accesses, Lane, ByteOf, ByteAt, Masked, Answer, WordIn, WordOf;
    LaneOfMasked(WordIn(init, log, a), Mask(hist), i);
    ByteAtOnce(init, Accesses(hist), Read(addr), Mask(hist), a + i);
    WordInBytes(init, log, a, i);
  }

  /**
   * With a memory behind the bus, a read under a mask gives in each of its lanes the byte that the last
   * write of that byte left there, and zero in the others.
   */
  lemma ReadGivesLastWrites(init: Word -> Byte, hist: seq<Cmd>, addr: Word, i: nat)
    requires i < 4
    ensures var b := ByteOf(Answer(Ram(init), hist + [Read(addr)]), i);
            if Lane(Mask(hist), i) then LastWritten(init, hist, WordOf(addr) + i, b) else b == 0
  {
    hide *;
    AnswerLane(init, hist, addr, i);
    MemoryKeepsLastWrite(init, hist, WordOf(addr) + i);
  }

  lemma WordInBytes(init: Word -> Byte, log: seq<Access>, a: Word, i: nat)
    requires i < 4 && WordOf(a) == a
    ensures ByteOf(WordIn(init, log, a), i) == ByteAt(init, log, a + i)
  {
    hide ByteAt, ByteOf;
    BytesOfJoin(ByteAt(init, log, a + 3), ByteAt(init, log, a + 2), ByteAt(init, log, a + 1), ByteAt(init, log, a));
  }
}
