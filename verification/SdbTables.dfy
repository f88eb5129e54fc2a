/**
 * What the scanner makes of the bytes in memory: which field lies where, which places hold a table, and
 * what a bridge contributes to the walk, all in bytes and numbers.
 */
module SdbTables {
  import opened Bytes
  import opened Sdb
  import opened SdbScan

  // ---------------------------------------------------------------- fields

  /** The number in `n` bytes from `off` on, most significant first. */
  function BigEndian(b: seq<Byte>, off: nat, n: nat): nat
    requires off + n <= |b|
  {
    if n == 0 then 0 else BigEndian(b, off, n - 1) * 0x100 + b[off + n - 1] as int
  }

  lemma TwoBytes(b: seq<Byte>, off: nat)
    requires off + 2 <= |b|
    ensures BigEndian(b, off, 2) == b[off] as int * 0x100 + b[off + 1] as int
  {
    assert BigEndian(b, off, 1) == BigEndian(b, off, 0) * 0x100 + b[off] as int;
  }

  lemma FourBytes(b: seq<Byte>, off: nat)
    requires off + 4 <= |b|
    ensures BigEndian(b, off, 4) == WordAt(b, off)
  {
    TwoBytes(b, off);
    assert BigEndian(b, off, 3) == BigEndian(b, off, 2) * 0x100 + b[off + 2] as int;
  }

  lemma EightBytes(b: seq<Byte>, off: nat)
    requires off + 8 <= |b|
    ensures BigEndian(b, off, 8) == LongAt(b, off)
  {
    FourBytes(b, off);
    FourBytes(b, off + 4);
    var high := BigEndian(b, off, 4);
    assert BigEndian(b, off + 4, 1) == b[off + 4] as int by { assert BigEndian(b, off + 4, 0) == 0; }
    assert BigEndian(b, off, 5) == high * 0x100 + BigEndian(b, off + 4, 1);
    assert BigEndian(b, off, 6) == high * 0x1_0000 + BigEndian(b, off + 4, 2);
    assert BigEndian(b, off, 7) == high * 0x100_0000 + BigEndian(b, off + 4, 3);
    assert BigEndian(b, off, 8) == high * 0x1_0000_0000 + BigEndian(b, off + 4, 4);
  }

  /** Byte `k` of the record at `off`, as a converting or plain bridge shows it. */
  function Shown(mem: Memory, convert: bool, off: nat, k: nat): Byte {
    if convert then mem(off + k - k % 4 + 3 - k % 4) else mem(off + k)
  }

  /** The 64 bytes of the record at `off`. */
  function BytesShown(mem: Memory, convert: bool, off: nat): (b: seq<Byte>)
    ensures |b| == 64
  {
    seq(64, k requires 0 <= k < 64 => Shown(mem, convert, off, k))
  }

  lemma ReaderShows(mem: Memory, convert: bool, off: nat)
    ensures ReaderOf(mem, convert)(off) == Decode(BytesShown(mem, convert, off))
  {
    var raw := Raw(mem, off);
    SwapIndexWithin();
    assert BytesShown(mem, convert, off) == if convert then SwapWords(raw) else raw;
  }

  /** Every field the library looks at, by its position in the record. */
  lemma FieldsAre(mem: Memory, convert: bool, off: nat)
    ensures
      var r, b := ReaderOf(mem, convert)(off), BytesShown(mem, convert, off);
      && r.magic == BigEndian(b, 0, 4) && r.records == BigEndian(b, 4, 2)
      && r.child == BigEndian(b, 0, 8) && r.first == BigEndian(b, 8, 8) && r.last == BigEndian(b, 16, 8)
      && r.name == b[44..63] && r.kind == b[63]
  {
    ReaderShows(mem, convert, off);
    var b := BytesShown(mem, convert, off);
    FourBytes(b, 0);
    TwoBytes(b, 4);
    EightBytes(b, 0);
    EightBytes(b, 8);
    EightBytes(b, 16);
  }

  /** The bytes of an interconnect: the four magic ones, and type zero. */
  predicate LooksLikeTable(b: seq<Byte>)
    requires |b| == 64
  {
    b[0] == 0x53 && b[1] == 0x44 && b[2] == 0x42 && b[3] == 0x2D && b[63] == 0x00
  }

  lemma TableLooks(mem: Memory, convert: bool, off: nat)
    ensures IsTable(ReaderOf(mem, convert)(off)) <==> LooksLikeTable(BytesShown(mem, convert, off))
  {
    ReaderShows(mem, convert, off);
    hide BytesShown;
  }

  // ---------------------------------------------------------------- walks

  /** `w` behind an item: a walk that never ends stays so. */
  function Behind(i: Item, w: Walk): Walk {
    Walk([i] + w.items, w.stuck)
  }

  /** One walk after another; behind one that never ends nothing comes. */
  function Joined(a: Walk, b: Walk): Walk {
    if a.stuck then a else Walk(a.items + b.items, b.stuck)
  }

  /** A place that does not look like a table contributes nothing. */
  lemma NoTable(mem: Memory, convert: bool, off: nat, base: nat, depth: nat)
    requires depth < 4
    ensures Table(ReaderOf(mem, convert), off, base, depth).items == []
            <==> !LooksLikeTable(BytesShown(mem, convert, off))
    ensures !LooksLikeTable(BytesShown(mem, convert, off)) ==> !Table(ReaderOf(mem, convert), off, base, depth).stuck
  {
    TableLooks(mem, convert, off);
    hide BytesShown, ReaderOf;
  }

  /** A table is its interconnect, then one entry less than it counts, from 64 bytes further on. */
  lemma ATable(mem: Memory, convert: bool, off: nat, base: nat, depth: nat)
    requires depth < 4 && LooksLikeTable(BytesShown(mem, convert, off))
    ensures
      var rd, n := ReaderOf(mem, convert), BigEndian(BytesShown(mem, convert, off), 4, 2);
      Table(rd, off, base, depth)
      == if n == 0 then Walk([Item(rd(off), base, depth)], true)
         else Behind(Item(rd(off), base, depth),
                     Entries(rd, (off + 64) % 0x1_0000_0000_0000_0000, base, n - 1, depth))
  {
    TableLooks(mem, convert, off);
    FieldsAre(mem, convert, off);
    hide BytesShown, ReaderOf, Entries, BigEndian;
  }

  /** Where a bridge leads: to a table at the child address, with addresses relative to the bridge's first one. */
  function ChildAt(b: seq<Byte>, base: nat): nat
    requires |b| == 64
  {
    (base + BigEndian(b, 0, 8)) % 0x1_0000_0000_0000_0000
  }

  function BaseOf(b: seq<Byte>, base: nat): nat
    requires |b| == 64
  {
    (base + BigEndian(b, 8, 8)) % 0x1_0000_0000_0000_0000
  }

  /** A record found is reported with its level and the address it describes: its table's base plus its first one. */
  lemma FoundAt(mem: Memory, convert: bool, off: nat, base: nat, depth: nat)
    ensures
      var r := ReaderOf(mem, convert)(off);
      SeenOf(Item(r, base, depth)) == Seen(r, BaseOf(BytesShown(mem, convert, off), base), depth)
  {
    FieldsAre(mem, convert, off);
    hide BytesShown, ReaderOf, BigEndian;
  }

  /** An entry leads further if it is a bridge above the fourth level in front of what looks like a table. */
  predicate Leads(mem: Memory, convert: bool, off: nat, base: nat, depth: nat) {
    var b := BytesShown(mem, convert, off);
    b[63] == 0x02 && depth < 3 && LooksLikeTable(BytesShown(mem, convert, ChildAt(b, base)))
  }

  /** An entry that leads nowhere, a bridge in front of anything else included, is followed directly by the next one. */
  lemma EntryPassed(mem: Memory, convert: bool, off: nat, base: nat, n: nat, depth: nat)
    requires depth < 4 && n > 0 && !Leads(mem, convert, off, base, depth)
    ensures
      var rd := ReaderOf(mem, convert);
      Entries(rd, off, base, n, depth)
      == Behind(Item(rd(off), base, depth),
                Entries(rd, (off + 64) % 0x1_0000_0000_0000_0000, base, n - 1, depth))
  {
    var rd := ReaderOf(mem, convert);
    NothingInside(mem, convert, off, base, depth);
    EntriesStep(rd, off, base, n, depth);
    hide ReaderOf, Leads, Entries, Inside;
    ThenNothing(Entries(rd, (off + RECORD) % U64, base, n - 1, depth));
  }

  lemma LeadsMeans(mem: Memory, convert: bool, off: nat, base: nat, depth: nat)
    ensures
      var rd, b := ReaderOf(mem, convert), BytesShown(mem, convert, off);
      && ChildAt(b, base) == (base + rd(off).child) % U64 && BaseOf(b, base) == (base + rd(off).first) % U64
      && (Leads(mem, convert, off, base, depth)
          <==> rd(off).kind == BRIDGE && depth + 1 < DEPTH && IsTable(rd((base + rd(off).child) % U64)))
  {
    FieldsAre(mem, convert, off);
    var b := BytesShown(mem, convert, off);
    hide BytesShown, ReaderOf, BigEndian, LooksLikeTable, IsTable;
    TableLooks(mem, convert, ChildAt(b, base));
  }

  lemma NothingInside(mem: Memory, convert: bool, off: nat, base: nat, depth: nat)
    requires depth < 4 && !Leads(mem, convert, off, base, depth)
    ensures var rd := ReaderOf(mem, convert); Inside(rd, rd(off), base, depth) == NOTHING
  {
    LeadsMeans(mem, convert, off, base, depth);
    hide ReaderOf, Leads, IsTable;
  }

  /** A bridge that leads to a table is followed by that table, one level down, and then by the next entry. */
  lemma BridgeEntered(mem: Memory, convert: bool, off: nat, base: nat, n: nat, depth: nat)
    requires depth < 4 && n > 0 && Leads(mem, convert, off, base, depth)
    ensures
      var rd, b := ReaderOf(mem, convert), BytesShown(mem, convert, off);
      Entries(rd, off, base, n, depth)
      == Behind(Item(rd(off), base, depth),
                Joined(Table(rd, ChildAt(b, base), BaseOf(b, base), depth + 1),
                       Entries(rd, (off + 64) % 0x1_0000_0000_0000_0000, base, n - 1, depth)))
  {
    var rd := ReaderOf(mem, convert);
    LeadsMeans(mem, convert, off, base, depth);
    hide BytesShown, ReaderOf, Leads, ChildAt, BaseOf, IsTable;
    EntriesStep(rd, off, base, n, depth);
    hide Entries, Table;
  }

  // ---------------------------------------------------------------- a bridge into blank memory

  /** A table of two records, itself and a bridge to 0x1000; everything else is blank. */
  function BlankChild(): Memory {
    (p: nat) =>
      if p == 0 then 0x53 else if p == 1 then 0x44 else if p == 2 then 0x42 else if p == 3 then 0x2D
      else if p == 5 then 2 else if p == 64 + 6 then 0x10 else if p == 64 + 63 then 0x02 else 0
  }

  lemma BlankChildWalk()
    ensures
      var rd := ReaderOf(BlankChild(), false);
      && Table(rd, 0, 0, 0) == Walk([Item(rd(0), 0, 0), Item(rd(64), 0, 0)], false)
      && rd(64).kind == 0x02 && rd(64).child == 0x1000
  {
    hide BytesShown, BigEndian, BlankChild, ReaderOf, LooksLikeTable, Table, Entries, Behind;
    var mem := BlankChild();
    var rd := ReaderOf(mem, false);
    BlankChildHead();
    BlankChildBridge();
    ATable(mem, false, 0, 0, 0);
    FieldsAre(mem, false, 64);
    BlankChildPassed();
    assert [Item(rd(0), 0, 0)] + [Item(rd(64), 0, 0)] == [Item(rd(0), 0, 0), Item(rd(64), 0, 0)];
  }

  lemma PlainByte(mem: Memory, off: nat, k: nat)
    requires k < 64
    ensures BytesShown(mem, false, off)[k] == mem(off + k)
  {
  }

  lemma BlankChildHead()
    ensures var head := BytesShown(BlankChild(), false, 0); LooksLikeTable(head) && BigEndian(head, 4, 2) == 2
  {
    var head := BytesShown(BlankChild(), false, 0);
    TwoBytes(head, 4);
  }

  lemma BlankChildBridge()
    ensures var b := BytesShown(BlankChild(), false, 64); b[63] == 0x02 && BigEndian(b, 0, 8) == 0x1000
  {
    hide *;
    var b := BytesShown(BlankChild(), false, 64);
    BlankChildWords();
    EightBytes(b, 0);
    LongIs(b);
  }

  lemma BlankChildWords()
    ensures var b := BytesShown(BlankChild(), false, 64); b[63] == 0x02 && WordAt(b, 0) == 0 && WordAt(b, 4) == 0x1000
  {
    hide *;
    var b := BytesShown(BlankChild(), false, 64);
    BlankChildByte(0);
    BlankChildByte(1);
    BlankChildByte(2);
    BlankChildByte(3);
    WordFrom(b, 0);
    BlankChildByte(4);
    BlankChildByte(5);
    BlankChildByte(6);
    BlankChildByte(7);
    WordFrom(b, 4);
    BlankChildByte(63);
  }

  lemma BlankChildByte(k: nat)
    requires k < 64
    ensures BytesShown(BlankChild(), false, 64)[k] == if k == 6 then 0x10 else if k == 63 then 0x02 else 0
  {
    PlainByte(BlankChild(), 64, k);
  }

  lemma WordFrom(b: seq<Byte>, at: nat)
    requires at + 4 <= |b|
    ensures
      WordAt(b, at) as int
      == b[at] as int * 0x100_0000 + b[at + 1] as int * 0x1_0000 + b[at + 2] as int * 0x100 + b[at + 3] as int
  {
  }

  lemma LongIs(b: seq<Byte>)
    requires |b| == 64
    ensures LongAt(b, 0) == WordAt(b, 0) as int * 0x1_0000_0000 + WordAt(b, 4) as int
  {
  }

  lemma BlankChildPassed()
    ensures
      var rd := ReaderOf(BlankChild(), false);
      Behind(Item(rd(0), 0, 0), Entries(rd, 64, 0, 1, 0)) == Walk([Item(rd(0), 0, 0)] + [Item(rd(64), 0, 0)], false)
  {
    var rd := ReaderOf(BlankChild(), false);
    BlankChildBridge();
    assert BytesShown(BlankChild(), false, 0x1000)[0] == 0;
    hide BytesShown, BigEndian, BlankChild, ReaderOf;
    EntryPassed(BlankChild(), false, 64, 0, 1, 0);
    NoEntries(rd, 128, 0, 0);
    hide Entries;
    assert [Item(rd(64), 0, 0)] + [] == [Item(rd(64), 0, 0)];
  }

  lemma NoEntries(rd: Reader, off: nat, base: nat, depth: nat)
    requires depth < DEPTH
    ensures Entries(rd, off, base, 0, depth) == NOTHING
  {
  }

  /** A bridge whose child is blank is passed over: the scan gives the table and the bridge, and then ends. */
  method BlankChildScan(n: nat) returns (out: seq<Seen>, ended: bool)
    requires n > 2
    ensures ended && |out| == 2
    ensures out[0].rec.kind == 0x00 && out[1].rec.kind == 0x02 && out[1].rec.child == 0x1000
  {
    BlankChildWalk();
    var rd := ReaderOf(BlankChild(), false);
    var fs := new Sdbfs(BlankChild(), false, 0);
    EndsExactly(rd, 0, 0, 0);
    out, ended := fs.ScanTimes(n);
  }
}
