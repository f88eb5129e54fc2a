/**
 * SDB records and the order in which a tree of SDB tables is to be visited, following sections 4.2,
 * 4.3 and 4.4.3 of the SDB specification 1.1: a bridge comes before the table it leads to.
 */
module Sdb {
  import opened Bytes

  const RECORD: nat := 64
  const DEPTH: nat := 4
  const U64: nat := 0x1_0000_0000_0000_0000
  const MAGIC: Word := 0x5344422d
  const INTERCONNECT: Byte := 0x00
  const DEVICE: Byte := 0x01
  const BRIDGE: Byte := 0x02

  /** The count field of an interconnect is 16 bits wide. */
  type Half = n: int | 0 <= n < 0x1_0000

  /** The fields of a 64-byte record that the library looks at. */
  datatype Record = Record(magic: Word, records: Half, child: nat, first: nat, last: nat, name: seq<Byte>, kind: Byte)

  function LongAt(b: seq<Byte>, at: nat): nat
    requires at + 8 <= |b|
  {
    WordAt(b, at) as int * 0x1_0000_0000 + WordAt(b, at + 4) as int
  }

  /** All fields are big-endian. */
  function Decode(b: seq<Byte>): Record
    requires |b| == RECORD
  {
    Record(WordAt(b, 0), b[4] as int * 0x100 + b[5] as int, LongAt(b, 0), LongAt(b, 8), LongAt(b, 16),
           b[0x2c..0x3f], b[0x3f])
  }

  type Memory = nat -> Byte

  function Raw(mem: Memory, off: nat): (b: seq<Byte>)
    ensures |b| == RECORD
  {
    seq(RECORD, k requires 0 <= k < RECORD => mem(off + k))
  }

  /** Index of byte `k` in a buffer whose 32-bit words are byte-swapped. */
  function SwapIndex(k: nat): nat {
    k - k % 4 + (3 - k % 4)
  }

  lemma SwapIndexInWord(q: nat, r: nat)
    requires r < 4
    ensures SwapIndex(4 * q + r) == 4 * q + (3 - r)
  {
    assert (4 * q + r) % 4 == r;
  }

  lemma SwapIndexWithin()
    ensures forall k :: 0 <= k < RECORD ==> 0 <= SwapIndex(k) < RECORD
  {
    forall k | 0 <= k < RECORD
      ensures 0 <= SwapIndex(k) < RECORD
    {
      SwapIndexInWord(k / 4, k % 4);
    }
  }

  function SwapWords(b: seq<Byte>): (s: seq<Byte>)
    requires |b| % 4 == 0
    ensures |s| == |b|
  {
    seq(|b|, k requires 0 <= k < |b| => b[SwapIndex(k)])
  }

  type Reader = nat -> Record

  /** What `sdbfs_readentry` makes of an offset, with or without word conversion. */
  function ReaderOf(mem: Memory, convert: bool): Reader {
    (off: nat) => Decode(if convert then SwapWords(Raw(mem, off)) else Raw(mem, off))
  }

  // ---------------------------------------------------------------- the walk to be refined

  /** A record visited, the base its addresses are relative to, and the level of its table. */
  datatype Item = Item(rec: Record, base: nat, depth: nat)
  {
    /** Absolute address of what the record describes. */
    function Offset(): nat {
      (base + rec.first) % U64
    }
  }

  /** Items in order; `stuck` says that the walk never leaves the table of the last one. */
  datatype Walk = Walk(items: seq<Item>, stuck: bool)

  const NOTHING: Walk := Walk([], false)

  function One(i: Item): Walk {
    Walk([i], false)
  }

  function Then(a: Walk, b: Walk): Walk {
    if a.stuck then a else Walk(a.items + b.items, b.stuck)
  }

  predicate IsTable(r: Record) {
    r.kind == INTERCONNECT && r.magic == MAGIC
  }

  /** The table at `off`: its interconnect record, then its entries. Without a valid interconnect there is none. */
  function Table(rd: Reader, off: nat, base: nat, depth: nat): (w: Walk)
    requires depth < DEPTH
    ensures w.stuck ==> w.items != []
    decreases DEPTH - depth, 0x1_0000
  {
    var r := rd(off);
    if !IsTable(r) then NOTHING
    else if r.records == 0 then Walk([Item(r, base, depth)], true)
    else Then(One(Item(r, base, depth)), Entries(rd, (off + RECORD) % U64, base, r.records as int - 1, depth))
  }

  /** `n` entries from `off` on, each followed by the table it leads to. */
  function Entries(rd: Reader, off: nat, base: nat, n: nat, depth: nat): (w: Walk)
    requires depth < DEPTH
    ensures w.stuck ==> w.items != []
    decreases DEPTH - depth, n
  {
    if n == 0 then NOTHING
    else
      var r := rd(off);
      Then(One(Item(r, base, depth)),
           Then(Inside(rd, r, base, depth), Entries(rd, (off + RECORD) % U64, base, n - 1, depth)))
  }

  /** Behind a bridge: addresses there are relative to where the bridge begins. Deeper levels are cut off. */
  function Inside(rd: Reader, r: Record, base: nat, depth: nat): (w: Walk)
    requires depth < DEPTH
    ensures w.stuck ==> w.items != []
    decreases DEPTH - depth, 0
  {
    if r.kind == BRIDGE && depth + 1 < DEPTH
    then Table(rd, (base + r.child) % U64, (base + r.first) % U64, depth + 1)
    else NOTHING
  }

  lemma ThenAssociative(a: Walk, b: Walk, c: Walk)
    ensures Then(Then(a, b), c) == Then(a, Then(b, c))
  {
    ConcatAssociative(a.items, b.items, c.items);
  }

  lemma ThenNothing(a: Walk)
    ensures Then(NOTHING, a) == a && Then(a, NOTHING) == a
  {
    assert [] + a.items == a.items && a.items + [] == a.items;
  }

  lemma ThenOne(i: Item, w: Walk)
    ensures var t := Then(One(i), w); |t.items| == |w.items| + 1 && t.items[0] == i && Walk(t.items[1..], t.stuck) == w
  {
  }

  // ---------------------------------------------------------------- when the walk ends

  /** Every table the walk enters states a count of at least one, its own interconnect included. */
  ghost predicate TableCounted(rd: Reader, off: nat, base: nat, depth: nat)
    requires depth < DEPTH
    decreases DEPTH - depth, 0x1_0000
  {
    IsTable(rd(off)) ==>
      && rd(off).records >= 1
      && EntriesCounted(rd, (off + RECORD) % U64, base, rd(off).records as int - 1, depth)
  }

  ghost predicate EntriesCounted(rd: Reader, off: nat, base: nat, n: nat, depth: nat)
    requires depth < DEPTH
    decreases DEPTH - depth, n
  {
    n > 0 ==>
      var r := rd(off);
      && (r.kind == BRIDGE && depth + 1 < DEPTH ==>
            TableCounted(rd, (base + r.child) % U64, (base + r.first) % U64, depth + 1))
      && EntriesCounted(rd, (off + RECORD) % U64, base, n - 1, depth)
  }

  /**
   * The walk ends, even if bridges lead back to tables they are part of, if and only if every table
   * entered is counted.
   */
  lemma {:induction false} EndsExactly(rd: Reader, off: nat, base: nat, depth: nat)
    requires depth < DEPTH
    ensures Table(rd, off, base, depth).stuck <==> !TableCounted(rd, off, base, depth)
    decreases DEPTH - depth, 0x1_0000
  {
    if IsTable(rd(off)) && rd(off).records >= 1 {
      EntriesEndExactly(rd, (off + RECORD) % U64, base, rd(off).records as int - 1, depth);
    }
  }

  lemma {:induction false} EntriesEndExactly(rd: Reader, off: nat, base: nat, n: nat, depth: nat)
    requires depth < DEPTH
    ensures Entries(rd, off, base, n, depth).stuck <==> !EntriesCounted(rd, off, base, n, depth)
    decreases DEPTH - depth, n
  {
    if n > 0 {
      var r := rd(off);
      if r.kind == BRIDGE && depth + 1 < DEPTH {
        EndsExactly(rd, (base + r.child) % U64, (base + r.first) % U64, depth + 1);
      }
      EntriesEndExactly(rd, (off + RECORD) % U64, base, n - 1, depth);
    }
  }

  // ---------------------------------------------------------------- where tables lie

  /** All tables the walk enters start at multiples of `unit`. */
  ghost predicate TableAligned(rd: Reader, off: nat, base: nat, depth: nat, unit: nat)
    requires depth < DEPTH && unit > 0
    decreases DEPTH - depth, 0x1_0000
  {
    off % unit == 0
    && (IsTable(rd(off)) && rd(off).records > 0 ==>
          EntriesAligned(rd, (off + RECORD) % U64, base, rd(off).records as int - 1, depth, unit))
  }

  ghost predicate EntriesAligned(rd: Reader, off: nat, base: nat, n: nat, depth: nat, unit: nat)
    requires depth < DEPTH && unit > 0
    decreases DEPTH - depth, n
  {
    n > 0 ==>
      var r := rd(off);
      && (r.kind == BRIDGE && depth + 1 < DEPTH ==>
            TableAligned(rd, (base + r.child) % U64, (base + r.first) % U64, depth + 1, unit))
      && EntriesAligned(rd, (off + RECORD) % U64, base, n - 1, depth, unit)
  }
}
