/**
 * From the image builder to the library: the scanner finds in a generated image exactly the tree it
 * was built from, at the addresses it was written to, and files read back as they were.
 */
module RoundTrip {
  import opened Bytes
  import opened Sdb
  import opened SdbScan
  import opened GenSdbfs
  import opened GenImage
  import opened GenLayout

  // ---------------------------------------------------------------- the device holding an image

  /** A storage device with the image on it; behind the image it reads as zeros. */
  function Disk(img: seq<Byte>): Memory {
    (k: nat) => if k < |img| then img[k] else 0
  }

  /** The range of a chunk reads as its bytes, zero-filled. */
  ghost predicate Shows(mem: Memory, w: Chunk) {
    forall a :: w.pos <= a < w.pos + w.len ==> mem(a) == if a - w.pos < |w.bytes| then w.bytes[a - w.pos] else 0
  }

  lemma DiskAfterWrite(img: seq<Byte>, w: Chunk, k: nat)
    ensures Disk(WriteAt(img, w.pos, w.bytes))(k)
         == if w.pos <= k < w.pos + |w.bytes| then w.bytes[k - w.pos] else Disk(img)(k)
  {
  }

  /** Behind a chain nothing was written. */
  lemma {:induction false} BlankBehind(ws: seq<Chunk>, lo: nat, hi: nat, k: nat)
    requires Chain(ws, lo, hi) && k >= hi
    ensures Disk(WriteAll([], ws))(k) == 0
    decreases |ws|
  {
    hide WriteAt, Disk;
    if ws == [] {
      EmptyDisk(k);
    } else {
      var w := ws[|ws| - 1];
      BlankBehind(ws[..|ws| - 1], lo, w.pos, k);
      DiskAfterWrite(WriteAll([], ws[..|ws| - 1]), w, k);
    }
  }

  lemma EmptyDisk(k: nat)
    ensures Disk([])(k) == 0
  {
  }

  /** Everything written into a chain of ranges is there in the end. */
  lemma {:induction false} ReadBack(ws: seq<Chunk>, lo: nat, hi: nat, i: nat)
    requires Chain(ws, lo, hi) && i < |ws|
    ensures Shows(Disk(WriteAll([], ws)), ws[i])
    decreases |ws|
  {
    hide WriteAt, Disk, WriteAll;
    var front, w, u := ws[..|ws| - 1], ws[|ws| - 1], ws[i];
    var before, after := Disk(WriteAll([], front)), Disk(WriteAll([], ws));
    WriteLast(ws);
    if i < |ws| - 1 {
      assert front[i] == u;
      ReadBack(front, lo, w.pos, i);
      ChainBounds(front, lo, w.pos, i);
    }
    forall a: nat | u.pos <= a < u.pos + u.len
      ensures after(a) == if a - u.pos < |u.bytes| then u.bytes[a - u.pos] else 0
    {
      DiskAfterWrite(WriteAll([], front), w, a);
      if i == |ws| - 1 {
        BlankBehind(front, lo, w.pos, a);
      }
    }
  }

  lemma WriteLast(ws: seq<Chunk>)
    requires ws != []
    ensures var w := ws[|ws| - 1]; WriteAll([], ws) == WriteAt(WriteAll([], ws[..|ws| - 1]), w.pos, w.bytes)
  {
    hide WriteAt;
  }

  ghost predicate ShowsAll(mem: Memory, ws: seq<Chunk>) {
    forall i :: 0 <= i < |ws| ==> Shows(mem, ws[i])
  }

  // ---------------------------------------------------------------- records

  lemma LongRoundTrip(b: seq<Byte>, at: nat, v: nat)
    requires v < U64 && at + 8 <= |b| && b[at..at + 8] == LongBytes(v)
    ensures LongAt(b, at) == v
  {
    var hi, lo := v / 0x1_0000_0000, v % 0x1_0000_0000;
    var hiBytes, loBytes := WordBytes(hi), WordBytes(lo);
    DecodeEncode(hi);
    DecodeEncode(lo);
    hide ToBE, WordBytes;
    var part := b[at..at + 8];
    assert forall k :: 0 <= k < 8 ==> part[k] == b[at + k];
    assert part == hiBytes + loBytes;
    assert b[at] == hiBytes[0] && b[at + 1] == hiBytes[1] && b[at + 2] == hiBytes[2] && b[at + 3] == hiBytes[3];
    assert b[at + 4] == loBytes[0] && b[at + 5] == loBytes[1] && b[at + 6] == loBytes[2] && b[at + 7] == loBytes[3];
  }

  /** The library reads back what the builder put into a record. */
  lemma DecodeEncodeRecord(head: seq<Byte>, first: nat, last: nat, name: seq<Byte>, kind: Byte)
    requires |head| == 8 && first < U64 && last < U64
    ensures
      var r := Decode(EncodeRecord(head, first, last, name, kind));
      && r.first == first && r.last == last && r.name == Padded(name) && r.kind == kind
      && r.magic == WordAt(head, 0) && r.records == head[4] as int * 0x100 + head[5] as int
      && r.child == LongAt(head, 0)
  {
    hide LongBytes, Padded, LongAt;
    var b := EncodeRecord(head, first, last, name, kind);
    assert b[8..16] == LongBytes(first);
    assert b[16..24] == LongBytes(last);
    assert b[0x2c..0x3f] == Padded(name);
    assert forall k :: 0 <= k < 8 ==> b[k] == head[k];
    LongRoundTrip(b, 8, first);
    LongRoundTrip(b, 16, last);
    LongOfPrefix(b, head);
  }

  lemma LongOfPrefix(b: seq<Byte>, head: seq<Byte>)
    requires |head| == 8 && |b| >= 8 && forall k :: 0 <= k < 8 ==> b[k] == head[k]
    ensures LongAt(b, 0) == LongAt(head, 0) && WordAt(b, 0) == WordAt(head, 0)
  {
  }

  function RecordOf(e: Entry): Record {
    Decode(EntryRecord(e))
  }

  lemma EntryFields(e: Entry)
    requires e.first < U64 && e.last < U64 && (e.DirAt? ==> e.child < U64)
    ensures
      var r := RecordOf(e);
      && r.first == e.first && r.last == e.last && r.name == Padded(e.name)
      && r.kind == (if e.DirAt? then BRIDGE else DEVICE) && (e.DirAt? ==> r.child == e.child)
  {
    hide EncodeRecord, Decode, LongBytes, WordBytes, ToBE, Padded, LongAt, WordAt;
    match e {
      case FileAt(name, flags, first, last, _, _) =>
        DecodeEncodeRecord([0, 0, 0, 0] + WordBytes(flags), first, last, name, DEVICE);
      case DirAt(name, first, last, _, child, _) =>
        DecodeEncodeRecord(LongBytes(child), first, last, name, BRIDGE);
        assert LongBytes(child)[0..8] == LongBytes(child);
        LongRoundTrip(LongBytes(child), 0, child);
    }
  }

  lemma HeadFields(count: nat, last: nat)
    requires count < 0x1_0000 && last < U64
    ensures
      var r := Decode(HeadRecord(count, last));
      IsTable(r) && r.records as int == count && r.first == 0 && r.last == last && r.name == Padded(DOT)
  {
    hide EncodeRecord, Decode, Padded, WordBytes, ToBE, LongAt, WordAt, LongBytes;
    var head := WordBytes(MAGIC) + [count / 0x100 % 0x100, count % 0x100, 1, 1];
    DecodeEncodeRecord(head, 0, last, DOT, INTERCONNECT);
    WordOfPrefix(WordBytes(MAGIC), [count / 0x100 % 0x100, count % 0x100, 1, 1]);
    DecodeEncode(MAGIC);
    CountBytes(count);
  }

  lemma WordOfPrefix(a: seq<Byte>, b: seq<Byte>)
    requires |a| >= 4
    ensures WordAt(a + b, 0) == WordAt(a, 0)
  {
  }

  lemma CountBytes(count: nat)
    requires count < 0x1_0000
    ensures (count / 0x100 % 0x100) * 0x100 + count % 0x100 == count
  {
  }

  /** Record `k` of a table. */
  lemma {:induction false} TableRecord(count: nat, last: nat, es: seq<Entry>, k: nat)
    requires k <= |es|
    ensures TableBytes(count, last, es)[RECORD * k..RECORD * (k + 1)]
         == if k == 0 then HeadRecord(count, last) else EntryRecord(es[k - 1])
    decreases |es|
  {
    hide HeadRecord, EntryRecord;
    if k < |es| {
      var front := es[..|es| - 1];
      TableRecord(count, last, front, k);
      assert TableBytes(count, last, es)[RECORD * k..RECORD * (k + 1)]
          == TableBytes(count, last, front)[RECORD * k..RECORD * (k + 1)];
    }
  }

  // ---------------------------------------------------------------- layouts on disk

  /** Addresses fit, and subdirectory tables are where their bridges say, relative to the base they state. */
  ghost predicate Sane(l: Layout)
    decreases l, 1
  {
    && |l.entries| + 1 < 0x1_0000 && l.last < U64
    && l.base + l.ustart + RECORD * (|l.entries| + 1) < U64
    && forall i :: 0 <= i < |l.entries| ==> SaneEntry(l.base, l.entries[i])
  }

  ghost predicate SaneEntry(base: nat, e: Entry)
    decreases e, 0
  {
    && e.first < U64 && e.last < U64 && base + e.first < U64
    && (e.FileAt? && e.pos.UserAt? ==> base == 0 && e.first == e.pos.start)
    && (e.DirAt? ==> e.child == e.first && e.sub.base == base + e.child && e.sub.ustart == 0 && Sane(e.sub))
  }

  /** Every table and every file of the layout reads back from the device. */
  ghost predicate OnDisk(mem: Memory, l: Layout)
    decreases l, 1
  {
    && Shows(mem, Chunk(l.base + l.ustart, |TableOf(l)|, TableOf(l)))
    && forall i :: 0 <= i < |l.entries| ==> EntryOnDisk(mem, l.base, l.entries[i])
  }

  ghost predicate EntryOnDisk(mem: Memory, base: nat, e: Entry)
    decreases e, 0
  {
    match e
    case FileAt(_, _, _, _, _, _) => Shows(mem, OneWrites(base, e)[0])
    case DirAt(_, _, _, _, _, sub) => OnDisk(mem, sub)
  }

  lemma ShowsParts(mem: Memory, a: seq<Chunk>, b: seq<Chunk>)
    requires ShowsAll(mem, a + b)
    ensures ShowsAll(mem, a) && ShowsAll(mem, b)
  {
    hide Shows;
    forall i | 0 <= i < |a|
      ensures Shows(mem, a[i])
    {
      assert (a + b)[i] == a[i];
    }
    forall i | 0 <= i < |b|
      ensures Shows(mem, b[i])
    {
      assert (a + b)[|a| + i] == b[i];
    }
  }

  lemma {:induction false} WritesShow(mem: Memory, l: Layout)
    requires ShowsAll(mem, Writes(l))
    ensures OnDisk(mem, l)
    decreases l, 1
  {
    hide Shows, TableOf;
    var table := Chunk(l.base + l.ustart, |TableOf(l)|, TableOf(l));
    ShowsParts(mem, [table], EntryWrites(l.base, l.entries));
    assert [table][0] == table;
    EntryWritesShow(mem, l.base, l.entries);
  }

  lemma {:induction false} EntryWritesShow(mem: Memory, base: nat, es: seq<Entry>)
    requires ShowsAll(mem, EntryWrites(base, es))
    ensures forall i :: 0 <= i < |es| ==> EntryOnDisk(mem, base, es[i])
    decreases es, 0
  {
    hide Shows, OnDisk, Writes;
    if es != [] {
      var e := es[|es| - 1];
      ShowsParts(mem, EntryWrites(base, es[..|es| - 1]), OneWrites(base, e));
      EntryWritesShow(mem, base, es[..|es| - 1]);
      if e.DirAt? {
        WritesShow(mem, e.sub);
      }
      forall i | 0 <= i < |es|
        ensures EntryOnDisk(mem, base, es[i])
      {
        if i < |es| - 1 { assert es[..|es| - 1][i] == es[i]; }
      }
    }
  }

  // ---------------------------------------------------------------- what the scanner visits

  datatype Visit = Head(l: Layout, depth: nat) | At(e: Entry, base: nat, depth: nat)

  /** Preorder of a layout: its table's head, each entry followed by its contents; too deep levels are cut. */
  ghost function Visits(l: Layout, depth: nat): seq<Visit>
    requires depth < DEPTH
    decreases l, 2, 0
  {
    [Head(l, depth)] + VisitsFrom(l, 0, depth)
  }

  ghost function VisitsFrom(l: Layout, k: nat, depth: nat): seq<Visit>
    requires depth < DEPTH && k <= |l.entries|
    decreases l, 1, |l.entries| - k
  {
    if k == |l.entries| then []
    else [At(l.entries[k], l.base, depth)] + (Below(l.entries[k], depth) + VisitsFrom(l, k + 1, depth))
  }

  ghost function Below(e: Entry, depth: nat): seq<Visit>
    requires depth < DEPTH
    decreases e, 0, 0
  {
    if e.DirAt? && depth + 1 < DEPTH then Visits(e.sub, depth + 1) else []
  }

  function ItemOf(v: Visit): Item {
    match v
    case Head(l, depth) => Item(Decode(HeadRecord(|l.entries| + 1, l.last)), l.base, depth)
    case At(e, base, depth) => Item(RecordOf(e), base, depth)
  }

  function Items(vs: seq<Visit>): (items: seq<Item>)
    ensures |items| == |vs|
  {
    seq(|vs|, i requires 0 <= i < |vs| => ItemOf(vs[i]))
  }

  lemma ItemsAppend(a: seq<Visit>, b: seq<Visit>)
    ensures Items(a + b) == Items(a) + Items(b)
  {
    hide ItemOf;
  }

  lemma WalkAppend(a: seq<Visit>, b: seq<Visit>)
    ensures Then(Walk(Items(a), false), Walk(Items(b), false)) == Walk(Items(a + b), false)
  {
    hide Items;
    ItemsAppend(a, b);
  }

  lemma WalkOne(v: Visit)
    ensures One(ItemOf(v)) == Walk(Items([v]), false)
  {
    hide ItemOf;
  }

  /** Record `k` of a table as the library reads it. */
  lemma ReadsTable(mem: Memory, l: Layout, k: nat)
    requires Shows(mem, Chunk(l.base + l.ustart, |TableOf(l)|, TableOf(l))) && k <= |l.entries|
    ensures ReaderOf(mem, false)(l.base + l.ustart + RECORD * k)
         == if k == 0 then Decode(HeadRecord(|l.entries| + 1, l.last)) else RecordOf(l.entries[k - 1])
  {
    hide Decode, HeadRecord, EntryRecord, Shows, Raw, TableBytes;
    TableRecord(|l.entries| + 1, l.last, l.entries, k);
    RawShows(mem, l.base + l.ustart, TableOf(l), RECORD * k);
  }

  lemma RawShows(mem: Memory, pos: nat, t: seq<Byte>, lo: nat)
    requires Shows(mem, Chunk(pos, |t|, t)) && lo + RECORD <= |t|
    ensures Raw(mem, pos + lo) == t[lo..lo + RECORD]
  {
    var raw, part := Raw(mem, pos + lo), t[lo..lo + RECORD];
    forall j | 0 <= j < RECORD
      ensures raw[j] == part[j]
    {
      assert mem(pos + lo + j) == t[lo + j];
    }
  }

  /** Scanning a layout on disk yields its preorder, and ends. */
  lemma {:induction false} ScanTable(mem: Memory, l: Layout, depth: nat)
    requires depth < DEPTH && Sane(l) && OnDisk(mem, l)
    ensures Table(ReaderOf(mem, false), l.base + l.ustart, l.base, depth) == Walk(Items(Visits(l, depth)), false)
    decreases l, 2, 0
  {
    hide ReaderOf, Items, Then, Entries, Decode, HeadRecord, Shows, TableOf, SaneEntry, EntryOnDisk;
    var n := |l.entries| + 1;
    var off := l.base + l.ustart;
    ReadsTable(mem, l, 0);
    HeadFields(n, l.last);
    assert (off + RECORD) % U64 == off + RECORD;
    ScanFrom(mem, l, 0, depth);
    WalkOne(Head(l, depth));
    WalkAppend([Head(l, depth)], VisitsFrom(l, 0, depth));
  }

  lemma {:induction false} ScanFrom(mem: Memory, l: Layout, k: nat, depth: nat)
    requires depth < DEPTH && k <= |l.entries| && Sane(l) && OnDisk(mem, l)
    ensures Entries(ReaderOf(mem, false), l.base + l.ustart + RECORD * (k + 1), l.base, |l.entries| - k, depth)
         == Walk(Items(VisitsFrom(l, k, depth)), false)
    decreases l, 1, |l.entries| - k
  {
    hide ReaderOf, Items, Then, Inside, Decode, EntryRecord, Shows, TableOf, Below;
    var off := l.base + l.ustart + RECORD * (k + 1);
    if k < |l.entries| {
      var e := l.entries[k];
      ReadsTable(mem, l, k + 1);
      ScanBelow(mem, l.base, e, depth);
      ScanFrom(mem, l, k + 1, depth);
      assert (off + RECORD) % U64 == off + RECORD;
      EntriesStep(ReaderOf(mem, false), off, l.base, |l.entries| - k, depth);
      WalkOne(At(e, l.base, depth));
      WalkAppend(Below(e, depth), VisitsFrom(l, k + 1, depth));
      WalkAppend([At(e, l.base, depth)], Below(e, depth) + VisitsFrom(l, k + 1, depth));
    } else {
      assert Items([]) == [];
    }
  }

  lemma {:induction false} ScanBelow(mem: Memory, base: nat, e: Entry, depth: nat)
    requires depth < DEPTH && SaneEntry(base, e) && EntryOnDisk(mem, base, e)
    ensures Inside(ReaderOf(mem, false), RecordOf(e), base, depth) == Walk(Items(Below(e, depth)), false)
    decreases e, 0, 0
  {
    hide ReaderOf, Items, Decode, EntryRecord, Table, RecordOf;
    EntryFields(e);
    if e.DirAt? && depth + 1 < DEPTH {
      ScanTable(mem, e.sub, depth + 1);
      assert (base + e.child) % U64 == base + e.child;
    } else {
      assert Items([]) == [];
    }
  }

  // ---------------------------------------------------------------- generated layouts

  /**
   * No position is demanded for a directory, and for a file only in the root directory, where the
   * configuration file may; addresses and counts fit their fields. Nothing is said about sizes.
   */
  ghost predicate Placeable(bs: nat, base: nat, ustart: nat, children: seq<Node>)
    requires bs > 0
    decreases children, 1
  {
    var table := RECORD * (|children| + 1);
    var rpos := ustart + Align(bs, table);
    && |children| + 1 < 0x1_0000 && base + ustart + table < U64 && rpos < U64
    && AllPlaceable(bs, base, children, Cursor(rpos, rpos, []))
  }

  ghost predicate AllPlaceable(bs: nat, base: nat, rest: seq<Node>, c: Cursor)
    requires bs > 0
    decreases rest, 0
  {
    rest != [] ==>
      && OnePlaceable(bs, base, rest[0], c)
      && AllPlaceable(bs, base, rest[1..], PlaceOne(bs, base, rest[0], c))
  }

  ghost predicate OnePlaceable(bs: nat, base: nat, n: Node, c: Cursor)
    requires bs > 0
    decreases n, 2
  {
    match n
    case File(_, _, _, _, pos) => if pos.UserAt? then base == 0 && pos.start < U64 else base + c.rpos < U64
    case Dir(_, _, pos, children) =>
      pos == Sequential && base + c.rpos < U64 && Placeable(bs, base + c.rpos, 0, children)
  }

  /** Every subdirectory's table is where its bridge says, relative to the base the scanner then uses. */
  lemma {:induction false} AllocSane(bs: nat, base: nat, ustart: nat, children: seq<Node>)
    requires bs > 0 && Placeable(bs, base, ustart, children)
    ensures Sane(Alloc(bs, base, ustart, children))
    decreases children, 1
  {
    hide Align, SaneEntry;
    var rpos := ustart + Align(bs, RECORD * (|children| + 1));
    PlaceSane(bs, base, children, Cursor(rpos, rpos, []));
  }

  lemma {:induction false} PlaceSane(bs: nat, base: nat, rest: seq<Node>, c: Cursor)
    requires bs > 0 && AllPlaceable(bs, base, rest, c) && c.last < U64
    requires forall i :: 0 <= i < |c.done| ==> SaneEntry(base, c.done[i])
    ensures
      var c' := Place(bs, base, rest, c);
      c'.last < U64 && forall i :: 0 <= i < |c'.done| ==> SaneEntry(base, c'.done[i])
    decreases rest, 0
  {
    hide SaneEntry, PlaceOne, OnePlaceable;
    if rest != [] {
      PlaceOneSane(bs, base, rest[0], c);
      PlaceSane(bs, base, rest[1..], PlaceOne(bs, base, rest[0], c));
    }
  }

  lemma {:induction false} PlaceOneSane(bs: nat, base: nat, n: Node, c: Cursor)
    requires bs > 0 && OnePlaceable(bs, base, n, c) && c.last < U64
    requires forall i :: 0 <= i < |c.done| ==> SaneEntry(base, c.done[i])
    ensures
      var c' := PlaceOne(bs, base, n, c);
      c'.last < U64 && forall i :: 0 <= i < |c'.done| ==> SaneEntry(base, c'.done[i])
    decreases n, 2
  {
    hide Align, Alloc, Placeable, Sane;
    var c' := PlaceOne(bs, base, n, c);
    if n.Dir? {
      AllocSane(bs, base + c.rpos, 0, n.children);
    }
    assert SaneEntry(base, c'.done[|c.done|]);
  }

  /** Sized trees are placeable. */
  lemma {:induction false} SizedPlaceable(bs: nat, base: nat, ustart: nat, children: seq<Node>)
    requires bs > 0 && base < UINT && TreeSized(bs, base, ustart, children)
    ensures Placeable(bs, base, ustart, children)
    decreases children, 1
  {
    hide Align;
    var table := RECORD * (|children| + 1);
    AlignBounds(bs, table);
    var rpos := ustart + Align(bs, table);
    AllSizedPlaceable(bs, base, children, Cursor(rpos, rpos, []));
  }

  lemma {:induction false} AllSizedPlaceable(bs: nat, base: nat, rest: seq<Node>, c: Cursor)
    requires bs > 0 && base < UINT && AllSized(bs, base, rest, c)
    ensures AllPlaceable(bs, base, rest, c)
    decreases rest, 0
  {
    hide Align, Alloc, Placeable, TreeSized, PlaceOne;
    if rest != [] {
      if rest[0].Dir? {
        SizedPlaceable(bs, base + c.rpos, 0, rest[0].children);
      }
      AllSizedPlaceable(bs, base, rest[1..], PlaceOne(bs, base, rest[0], c));
    }
  }

  /** Everything the builder writes for a well-reserved tree can be read back from the image. */
  lemma ImageShowsTree(bs: nat, ustart: nat, children: seq<Node>)
    requires bs > 0 && TreeOk(bs, 0, ustart, children)
    ensures var l := Alloc(bs, 0, ustart, children);
            Sane(l) && OnDisk(Disk(WriteAll([], Writes(l))), l)
  {
    hide TreeSized, TreeClear, Chain, Shows, Sane, OnDisk, Alloc, Writes, WriteAll, Placeable;
    var l := Alloc(bs, 0, ustart, children);
    SizedPlaceable(bs, 0, ustart, children);
    AllocSane(bs, 0, ustart, children);
    AllocChains(bs, 0, ustart, children);
    var ws := Writes(l);
    forall i | 0 <= i < |ws|
      ensures Shows(Disk(WriteAll([], ws)), ws[i])
    {
      ReadBack(ws, ustart, EndOf(l), i);
    }
    WritesShow(Disk(WriteAll([], ws)), l);
  }

  /** The scanner, entered at the root table, visits exactly the tree, in preorder, and ends. */
  lemma ImageScansAsTree(bs: nat, ustart: nat, children: seq<Node>)
    requires bs > 0 && TreeOk(bs, 0, ustart, children)
    ensures
      var l := Alloc(bs, 0, ustart, children);
      Table(ReaderOf(Disk(WriteAll([], Writes(l))), false), ustart, 0, 0) == Walk(Items(Visits(l, 0)), false)
  {
    hide TreeOk, Sane, OnDisk, Writes, WriteAll, Visits, Items, Table, ReaderOf;
    var l := Alloc(bs, 0, ustart, children);
    ImageShowsTree(bs, ustart, children);
    ScanTable(Disk(WriteAll([], Writes(l))), l, 0);
  }

  /**
   * What a scanner computes for visit `v`: for a file the offset of its contents, for a directory the
   * base and the table it goes on with. These are the places the builder writes to.
   */
  ghost predicate Agrees(v: Visit) {
    v.At? ==>
      match v.e
      case FileAt(_, _, _, _, _, _) => ItemOf(v).Offset() == OneWrites(v.base, v.e)[0].pos
      case DirAt(_, _, _, _, _, sub) =>
        && ItemOf(v).Offset() == sub.base
        && (v.base + RecordOf(v.e).child) % U64 == Writes(sub)[0].pos
  }

  /**
   * Nested address agreement, for every tree: whatever level a file is on, the absolute offset the
   * scanner computes for it is where the builder writes its contents.
   */
  lemma OffsetsAgree(bs: nat, ustart: nat, children: seq<Node>, j: nat)
    requires bs > 0 && Placeable(bs, 0, ustart, children)
    requires j < |Visits(Alloc(bs, 0, ustart, children), 0)|
    ensures Agrees(Visits(Alloc(bs, 0, ustart, children), 0)[j])
  {
    hide Placeable, Agrees, Sane, Alloc, Visits;
    AllocSane(bs, 0, ustart, children);
    VisitsAgree(Alloc(bs, 0, ustart, children), 0, j);
  }

  lemma {:induction false} VisitsAgree(l: Layout, depth: nat, j: nat)
    requires depth < DEPTH && Sane(l) && j < |Visits(l, depth)|
    ensures Agrees(Visits(l, depth)[j])
    decreases l, 2, 0
  {
    hide VisitsFrom, SaneEntry;
    if j > 0 {
      VisitsAgreeFrom(l, 0, depth, j - 1);
    }
  }

  lemma {:induction false} VisitsAgreeFrom(l: Layout, k: nat, depth: nat, j: nat)
    requires depth < DEPTH && k <= |l.entries| && Sane(l) && j < |VisitsFrom(l, k, depth)|
    ensures Agrees(VisitsFrom(l, k, depth)[j])
    decreases l, 1, |l.entries| - k
  {
    hide RecordOf, Visits, TableOf, Agrees;
    var e := l.entries[k];
    if j == 0 {
      EntryAgrees(e, l.base, depth);
    } else if j - 1 < |Below(e, depth)| {
      VisitsAgree(e.sub, depth + 1, j - 1);
    } else {
      VisitsAgreeFrom(l, k + 1, depth, j - 1 - |Below(e, depth)|);
    }
  }

  lemma EntryAgrees(e: Entry, base: nat, depth: nat)
    requires SaneEntry(base, e)
    ensures Agrees(At(e, base, depth))
  {
    hide RecordOf, TableOf;
    EntryFields(e);
  }

  /** And its bytes are there, zero-filled to its reservation, if the layout is on the device. */
  lemma {:induction false} FilesShown(mem: Memory, l: Layout, depth: nat, j: nat)
    requires depth < DEPTH && OnDisk(mem, l) && j < |Visits(l, depth)|
    ensures var v := Visits(l, depth)[j]; v.At? && v.e.FileAt? ==> Shows(mem, OneWrites(v.base, v.e)[0])
    decreases l, 2, 0
  {
    hide Shows, VisitsFrom, EntryOnDisk;
    if j > 0 {
      FilesShownFrom(mem, l, 0, depth, j - 1);
    }
  }

  lemma {:induction false} FilesShownFrom(mem: Memory, l: Layout, k: nat, depth: nat, j: nat)
    requires depth < DEPTH && k <= |l.entries| && OnDisk(mem, l) && j < |VisitsFrom(l, k, depth)|
    ensures var v := VisitsFrom(l, k, depth)[j]; v.At? && v.e.FileAt? ==> Shows(mem, OneWrites(v.base, v.e)[0])
    decreases l, 1, |l.entries| - k
  {
    hide Shows, Visits, TableOf;
    var e := l.entries[k];
    if j == 0 {
    } else if j - 1 < |Below(e, depth)| {
      FilesShown(mem, e.sub, depth + 1, j - 1);
    } else {
      FilesShownFrom(mem, l, k + 1, depth, j - 1 - |Below(e, depth)|);
    }
  }

  /** A directory's contents are found exactly where they are unless its own position was demanded elsewhere. */
  lemma DirectoryAgrees(bs: nat, base: nat, n: Node, c: Cursor)
    requires bs > 0 && n.Dir?
    ensures
      var e := PlaceOne(bs, base, n, c).done[|c.done|];
      && e.DirAt? && e.sub.base == base + e.child
      && (base + e.first == e.sub.base <==> n.pos == Sequential || n.pos == UserAt(c.rpos))
  {
  }
}
