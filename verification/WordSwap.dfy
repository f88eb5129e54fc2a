/**
 * Images whose 32-bit words arrive byte-swapped, as behind a little-endian bus (section 5.4 of the
 * SDB specification): mounting detects them, and the walk does not notice.
 */
module WordSwap {
  import opened Bytes
  import opened Sdb

  /** The same image seen through a bus that swaps the bytes of every aligned word. */
  function Swapped(mem: Memory): Memory {
    (k: nat) => mem(SwapIndex(k))
  }

  /** A 32-bit load on a little-endian host. */
  function HostLoad(mem: Memory, off: nat): Word {
    Join(mem(off + 3), mem(off + 2), mem(off + 1), mem(off))
  }

  function ByteSwap(w: Word): Word {
    Join(w % 0x100, (w / 0x100) % 0x100, (w / 0x1_0000) % 0x100, w / 0x100_0000)
  }

  datatype Mounted = NotADirectory | Mounted(convert: bool)

  /** `sdbfs_dev_create` on a little-endian host. */
  function Mount(mem: Memory, entrypoint: nat): Mounted {
    var magic := HostLoad(mem, entrypoint);
    if magic == MAGIC then Mounted.Mounted(true)
    else if ByteSwap(magic) == MAGIC then Mounted.Mounted(false)
    else NotADirectory
  }

  lemma ByteSwapOfLoad(mem: Memory, off: nat)
    ensures ByteSwap(HostLoad(mem, off)) == Join(mem(off), mem(off + 1), mem(off + 2), mem(off + 3))
  {
    SwapOfJoin(mem(off + 3), mem(off + 2), mem(off + 1), mem(off));
  }

  lemma LowDigit(high: nat, d: Byte)
    ensures (high * 0x100 + d as int) / 0x100 == high && (high * 0x100 + d as int) % 0x100 == d as int
  {
  }

  lemma DivTwice(w: nat)
    ensures w / 0x1_0000 == w / 0x100 / 0x100 && w / 0x100_0000 == w / 0x1_0000 / 0x100
  {
  }

  lemma SwapOfJoin(a: Byte, b: Byte, c: Byte, d: Byte)
    ensures ByteSwap(Join(a, b, c, d)) == Join(d, c, b, a)
  {
    var high2 := a as int * 0x100 + b as int;
    var high3 := high2 * 0x100 + c as int;
    assert Join(a, b, c, d) == high3 * 0x100 + d as int;
    DivTwice(Join(a, b, c, d));
    LowDigit(high3, d);
    LowDigit(high2, c);
    LowDigit(a as int, b);
  }

  /** Mounting reads the magic number in whichever byte order it is there. */
  lemma MountExactly(mem: Memory, entrypoint: nat)
    ensures Mount(mem, entrypoint) ==
      var m := [mem(entrypoint), mem(entrypoint + 1), mem(entrypoint + 2), mem(entrypoint + 3)];
      if m == [0x2d, 0x42, 0x44, 0x53] then Mounted.Mounted(true)
      else if m == [0x53, 0x44, 0x42, 0x2d] then Mounted.Mounted(false)
      else NotADirectory
  {
    ByteSwapOfLoad(mem, entrypoint);
    JoinIsMagic(mem(entrypoint), mem(entrypoint + 1), mem(entrypoint + 2), mem(entrypoint + 3));
    JoinIsMagic(mem(entrypoint + 3), mem(entrypoint + 2), mem(entrypoint + 1), mem(entrypoint));
    var m := [mem(entrypoint), mem(entrypoint + 1), mem(entrypoint + 2), mem(entrypoint + 3)];
    assert m == [0x53, 0x44, 0x42, 0x2d] <==> m[0] == 0x53 && m[1] == 0x44 && m[2] == 0x42 && m[3] == 0x2d;
    assert m == [0x2d, 0x42, 0x44, 0x53] <==> m[0] == 0x2d && m[1] == 0x42 && m[2] == 0x44 && m[3] == 0x53;
  }

  lemma JoinIsMagic(a: Byte, b: Byte, c: Byte, d: Byte)
    ensures Join(a, b, c, d) == MAGIC <==> a == 0x53 && b == 0x44 && c == 0x42 && d == 0x2d
  {
  }

  lemma SwapIndexTwice(k: nat, off: nat)
    requires off % 4 == 0
    ensures SwapIndex(SwapIndex(k)) == k && SwapIndex(off + k) == off + SwapIndex(k)
  {
    hide SwapIndex;
    var q, r, p := k / 4, k % 4, off / 4;
    assert k == 4 * q + r && off == 4 * p;
    SwapIndexInWord(q, r);
    SwapIndexInWord(q, 3 - r);
    SwapIndexInWord(p + q, r);
    assert off + k == 4 * (p + q) + r;
  }

  /** A swapped image mounts exactly when the original does, and then its words are converted. */
  lemma SwappedMounts(mem: Memory, entrypoint: nat)
    requires entrypoint % 4 == 0
    ensures Mount(mem, entrypoint) == Mounted.Mounted(false)
            <==> Mount(Swapped(mem), entrypoint) == Mounted.Mounted(true)
    ensures Mount(mem, entrypoint) == NotADirectory <==> Mount(Swapped(mem), entrypoint) == NotADirectory
  {
    hide Mount;
    MountExactly(mem, entrypoint);
    MountExactly(Swapped(mem), entrypoint);
    SwapIndexTwice(0, entrypoint);
    SwapIndexTwice(1, entrypoint);
    SwapIndexTwice(2, entrypoint);
    SwapIndexTwice(3, entrypoint);
  }

  /** Reading a record of the swapped image with conversion gives the original record. */
  lemma SameRecord(mem: Memory, off: nat)
    requires off % 4 == 0
    ensures ReaderOf(Swapped(mem), true)(off) == ReaderOf(mem, false)(off)
  {
    var raw := Raw(Swapped(mem), off);
    forall k | 0 <= k < RECORD
      ensures SwapWords(raw)[k] == mem(off + k)
    {
      SwapIndexTwice(k, off);
      SwapIndexTwice(SwapIndex(k), off);
    }
    assert SwapWords(raw) == Raw(mem, off);
  }

  /** Word-swap transparency: the same records in the same order, at the same offsets. */
  lemma {:induction false} SameWalk(mem: Memory, off: nat, base: nat, depth: nat)
    requires depth < DEPTH && TableAligned(ReaderOf(mem, false), off, base, depth, 4)
    ensures Table(ReaderOf(Swapped(mem), true), off, base, depth) == Table(ReaderOf(mem, false), off, base, depth)
    decreases DEPTH - depth, 0x1_0000
  {
    hide ReaderOf, Then;
    SameRecord(mem, off);
    var r := ReaderOf(mem, false)(off);
    if IsTable(r) && r.records > 0 {
      NextAligned(off);
      SameEntries(mem, (off + RECORD) % U64, base, r.records as int - 1, depth);
    }
  }

  lemma {:induction false} SameEntries(mem: Memory, off: nat, base: nat, n: nat, depth: nat)
    requires depth < DEPTH && off % 4 == 0 && EntriesAligned(ReaderOf(mem, false), off, base, n, depth, 4)
    ensures Entries(ReaderOf(Swapped(mem), true), off, base, n, depth)
         == Entries(ReaderOf(mem, false), off, base, n, depth)
    decreases DEPTH - depth, n
  {
    hide ReaderOf, Then, Table;
    if n > 0 {
      SameRecord(mem, off);
      NextAligned(off);
      var r := ReaderOf(mem, false)(off);
      if r.kind == BRIDGE && depth + 1 < DEPTH {
        SameWalk(mem, (base + r.child) % U64, (base + r.first) % U64, depth + 1);
      }
      SameEntries(mem, (off + RECORD) % U64, base, n - 1, depth);
    }
  }

  lemma NextAligned(off: nat)
    requires off % 4 == 0
    ensures (off + RECORD) % U64 % 4 == 0
  {
  }
}
