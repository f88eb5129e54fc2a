/**
 * The whole way of a file: allocated, written into an image, the image mounted, the file opened by
 * name and read in pieces.
 */
module FileRoundTrip {
  import opened Bytes
  import opened Sdb
  import opened SdbScan
  import opened GenSdbfs
  import opened GenImage
  import opened GenFit
  import opened GenLayout
  import opened RoundTrip
  import WordSwap

  /** A name the format can tell apart from its padding. */
  predicate NameOk(name: seq<Byte>) {
    1 <= |name| <= 19 && BLANK !in name
  }

  lemma PaddedBlank(m: seq<Byte>, k: nat)
    requires NameOk(m) && k < 19
    ensures Padded(m)[k] == BLANK <==> k >= |m|
  {
    if k < |m| {
      assert m[k] in m;
    }
  }

  /** Opening by such a name finds exactly the records of that name. */
  lemma NameMatches(name: seq<Byte>, r: Record, m: seq<Byte>)
    requires NameOk(name) && NameOk(m) && r.name == Padded(m)
    ensures Matches(name, r) <==> name == m
  {
    var p, n := Padded(m), |name|;
    PaddedBlank(m, n - 1);
    assert name[n - 1] in name;
    if n < 19 { PaddedBlank(m, n); }
    assert p[..|m|] == m;
    if Matches(name, r) {
      assert p[..n][n - 1] == p[n - 1];
    }
  }

  /** A file's reserved range as a reader sees it: its bytes, zero-filled. */
  function Contents(e: Entry): seq<Byte>
    requires e.FileAt?
  {
    seq((e.last + 1 - e.first) % U64, k requires 0 <= k => if k < |e.data| then e.data[k] else 0)
  }

  /** Visit `j` is a file of that name, and nothing else visited has it. */
  ghost predicate OnlyFile(vs: seq<Visit>, name: seq<Byte>, j: nat) {
    && j < |vs| && vs[j].At? && vs[j].e.FileAt? && vs[j].e.name == name
    && forall i {:trigger vs[i]} :: 0 <= i < |vs| && vs[i].At? ==>
         NameOk(vs[i].e.name) && (vs[i].e.name == name ==> i == j)
  }

  /** The record of a visit carries the name, and for an entry its addresses. */
  ghost predicate Named(v: Visit) {
    var r := ItemOf(v).rec;
    match v
    case Head(_, _) => r.name == Padded(DOT)
    case At(e, _, _) => r.name == Padded(e.name) && r.first == e.first && r.last == e.last
  }

  lemma {:induction false} VisitFields(l: Layout, depth: nat, i: nat)
    requires depth < DEPTH && Sane(l) && i < |Visits(l, depth)|
    ensures Named(Visits(l, depth)[i])
    decreases l, 2, 0
  {
    hide Decode, HeadRecord, RecordOf, Padded, VisitsFrom, SaneEntry;
    if i == 0 {
      HeadFields(|l.entries| + 1, l.last);
    } else {
      VisitFieldsFrom(l, 0, depth, i - 1);
    }
  }

  lemma {:induction false} VisitFieldsFrom(l: Layout, k: nat, depth: nat, i: nat)
    requires depth < DEPTH && k <= |l.entries| && Sane(l) && i < |VisitsFrom(l, k, depth)|
    ensures Named(VisitsFrom(l, k, depth)[i])
    decreases l, 1, |l.entries| - k
  {
    hide Decode, HeadRecord, RecordOf, Padded, Visits;
    var e := l.entries[k];
    if i == 0 {
      EntryFields(e);
    } else if i - 1 < |Below(e, depth)| {
      VisitFields(e.sub, depth + 1, i - 1);
    } else {
      VisitFieldsFrom(l, k + 1, depth, i - 1 - |Below(e, depth)|);
    }
  }

  /** The only file of its name is the first match. */
  lemma OnlyFileMatches(l: Layout, name: seq<Byte>, j: nat, k: nat)
    requires Sane(l) && NameOk(name) && name != DOT && OnlyFile(Visits(l, 0), name, j)
    requires k < |Visits(l, 0)|
    ensures Matches(name, Items(Visits(l, 0))[k].rec) <==> k == j
  {
    hide Visits, Matches, ItemOf, Padded;
    VisitFields(l, 0, k);
    var v := Visits(l, 0)[k];
    assert NameOk(DOT);
    NameMatches(name, ItemOf(v).rec, if v.At? then v.e.name else DOT);
  }

  lemma HeadMagic(count: nat, last: nat)
    ensures HeadRecord(count, last)[..4] == [0x53, 0x44, 0x42, 0x2d]
  {
    hide LongBytes, Padded;
    WordBytesAre(MAGIC);
  }

  /** A generated image mounts without conversion. */
  lemma ImageMounts(mem: Memory, l: Layout)
    requires OnDisk(mem, l) && l.base == 0
    ensures WordSwap.Mount(mem, l.ustart) == WordSwap.Mounted.Mounted(false)
  {
    hide EntryOnDisk, HeadRecord, EntryRecord;
    var t := TableOf(l);
    TableRecord(|l.entries| + 1, l.last, l.entries, 0);
    HeadMagic(|l.entries| + 1, l.last);
    var h := HeadRecord(|l.entries| + 1, l.last);
    assert t[0..64] == h;
    assert forall k :: 0 <= k < 4 ==> t[k] == t[0..64][k] && h[k] == h[..4][k];
    assert mem(l.ustart) == 0x53 && mem(l.ustart + 1) == 0x44 && mem(l.ustart + 2) == 0x42 && mem(l.ustart + 3) == 0x2d;
    WordSwap.MountExactly(mem, l.ustart);
  }

  /** Reading a shown file gives a prefix of its contents. */
  lemma BytesAreContents(mem: Memory, base: nat, e: Entry, n: nat)
    requires e.FileAt? && Shows(mem, OneWrites(base, e)[0]) && n <= |Contents(e)|
    ensures BytesAt(mem, OneWrites(base, e)[0].pos, n) == Contents(e)[..n]
  {
    var w := OneWrites(base, e)[0];
    forall k | 0 <= k < n
      ensures BytesAt(mem, w.pos, n)[k] == Contents(e)[..n][k]
    {
      assert mem(w.pos + k) == if k < |w.bytes| then w.bytes[k] else 0;
    }
  }

  /** The builder from tree to image. */
  method BuildImage(bs: nat, ustart: nat, children: seq<Node>) returns (img: seq<Byte>)
    requires bs > 0
    ensures img == WriteAll([], Writes(Alloc(bs, 0, ustart, children)))
  {
    hide Alloc, Writes, WriteAll;
    var l := AllocStorage(bs, 0, ustart, children);
    var out := new OutFile();
    WriteSdb(bs, l, out);
    img := out.data;
  }

  /** The device mounts, and scanning it visits `vs` and ends. */
  ghost predicate Mountable(mem: Memory, entrypoint: nat, vs: seq<Visit>) {
    && entrypoint < U64 && WordSwap.Mount(mem, entrypoint) == WordSwap.Mounted.Mounted(false)
    && IsTable(ReaderOf(mem, false)(entrypoint))
    && Table(ReaderOf(mem, false), entrypoint, 0, 0) == Walk(Items(vs), false)
  }

  /** Behind the root's head, item `j` and no other has the name. */
  ghost predicate OnlyMatch(vs: seq<Visit>, name: seq<Byte>, j: nat) {
    1 <= j < |vs| && forall k :: 0 <= k < |vs| ==> (Matches(name, Items(vs)[k].rec) <==> k == j)
  }

  /** Length a reader computes for an item. */
  function LengthOf(item: Item): nat {
    (item.rec.last + 1 - item.rec.first) % U64
  }

  /** Visit `j` is a file whose contents the device shows where its record says. */
  ghost predicate FileShown(mem: Memory, vs: seq<Visit>, j: nat) {
    && j < |vs| && vs[j].At? && vs[j].e.FileAt?
    && var item, w := Items(vs)[j], OneWrites(vs[j].base, vs[j].e)[0];
       item.Offset() == w.pos && Shows(mem, w) && LengthOf(item) == |Contents(vs[j].e)|
  }

  /** The library on a device: mount, open by name, read in pieces. */
  method OpenAndRead(mem: Memory, entrypoint: nat, name: seq<Byte>, sizes: seq<nat>, ghost vs: seq<Visit>, ghost j: nat)
    returns (ret: int, data: seq<Byte>)
    requires Mountable(mem, entrypoint, vs) && OnlyMatch(vs, name, j) && |name| <= 19
    requires PiecesFit(sizes, LengthOf(Items(vs)[j]))
    ensures ret == 0
    ensures var len := LengthOf(Items(vs)[j]);
            data == BytesAt(mem, Items(vs)[j].Offset(), if Sum(sizes) < len then Sum(sizes) else len)
  {
    hide Table, ReaderOf, Matches, Items, IsTable, WordSwap.Mount;
    var mounted := WordSwap.Mount(mem, entrypoint);
    var fs := new Sdbfs(mem, mounted.convert, entrypoint);
    ghost var items := Items(vs);
    assert fs.Searched() == Walk(items[1..], false);
    ret := fs.OpenName(name);
    assert Matches(name, items[1..][j - 1].rec);
    ghost var k: nat :| FirstMatch(items[1..], name, k) && fs.Opened(items[1..][k]);
    assert k + 1 == j;
    data := fs.ReadPieces(sizes);
  }

  /**
   * Generator and reader together, for any tree that reserves enough: opening a file by a name that is
   * unique among what the scanner visits, and reading it in pieces of any sizes, returns its bytes,
   * zero-filled up to its reservation.
   */
  method BuildAndRead(bs: nat, ustart: nat, children: seq<Node>, name: seq<Byte>, sizes: seq<nat>, ghost j: nat)
    returns (ret: int, data: seq<Byte>)
    requires bs > 0 && TreeOk(bs, 0, ustart, children) && NameOk(name) && name != DOT
    requires OnlyFile(Visits(Alloc(bs, 0, ustart, children), 0), name, j)
    requires PiecesFit(sizes, |Contents(Visits(Alloc(bs, 0, ustart, children), 0)[j].e)|)
    ensures ret == 0
    ensures var all := Contents(Visits(Alloc(bs, 0, ustart, children), 0)[j].e);
            data == all[..if Sum(sizes) < |all| then Sum(sizes) else |all|]
  {
    hide Alloc, Visits, Writes, WriteAll, TreeOk, Disk, OnlyFile, Contents, OneWrites, Shows;
    hide Mountable, OnlyMatch, Items;
    var img := BuildImage(bs, ustart, children);
    ghost var l := Alloc(bs, 0, ustart, children);
    ImageReady(bs, ustart, children, name, j);
    ret, data := OpenAndRead(Disk(img), ustart, name, sizes, Visits(l, 0), j);
    BytesAreContents(Disk(img), Visits(l, 0)[j].base, Visits(l, 0)[j].e, |data|);
  }

  /** What opening and reading needs of a generated image. */
  lemma ImageReady(bs: nat, ustart: nat, children: seq<Node>, name: seq<Byte>, j: nat)
    requires bs > 0 && TreeOk(bs, 0, ustart, children) && NameOk(name) && name != DOT
    requires OnlyFile(Visits(Alloc(bs, 0, ustart, children), 0), name, j)
    ensures
      var l := Alloc(bs, 0, ustart, children);
      var mem, vs := Disk(WriteAll([], Writes(l))), Visits(l, 0);
      Mountable(mem, ustart, vs) && OnlyMatch(vs, name, j) && FileShown(mem, vs, j)
  {
    TableBelow(bs, ustart, children);
    hide Alloc, Visits, Writes, WriteAll, TreeOk, Sane, OnDisk, Table, ReaderOf, Shows, Matches, Items, Disk, OneWrites,
      OnlyFile, IsTable, Contents, WordSwap.Mount;
    var l := Alloc(bs, 0, ustart, children);
    var mem := Disk(WriteAll([], Writes(l)));
    ImageShowsTree(bs, ustart, children);
    ImageScansAsTree(bs, ustart, children);
    ImageMounts(mem, l);
    RootIsTable(mem, l);
    OnlyOneMatches(l, name, j);
    OnlyFileIsFile(Visits(l, 0), name, j);
    FileVisit(mem, l, j);
  }

  lemma TableBelow(bs: nat, ustart: nat, children: seq<Node>)
    requires bs > 0 && TreeOk(bs, 0, ustart, children)
    ensures ustart < U64
  {
  }

  lemma OnlyFileIsFile(vs: seq<Visit>, name: seq<Byte>, j: nat)
    requires OnlyFile(vs, name, j)
    ensures j < |vs| && vs[j].At? && vs[j].e.FileAt?
  {
  }

  lemma RootIsTable(mem: Memory, l: Layout)
    requires OnDisk(mem, l) && Sane(l) && l.base == 0
    ensures IsTable(ReaderOf(mem, false)(l.ustart))
  {
    hide ReaderOf, Decode, HeadRecord, EntryOnDisk, SaneEntry, Shows, TableOf, RecordOf;
    ReadsTable(mem, l, 0);
    HeadFields(|l.entries| + 1, l.last);
  }

  lemma OnlyOneMatches(l: Layout, name: seq<Byte>, j: nat)
    requires Sane(l) && NameOk(name) && name != DOT && OnlyFile(Visits(l, 0), name, j)
    ensures OnlyMatch(Visits(l, 0), name, j)
  {
    var items := Items(Visits(l, 0));
    hide Matches, Items, ItemOf, VisitsFrom, Sane;
    assert Visits(l, 0)[0] == Head(l, 0);
    forall k | 0 <= k < |items|
      ensures Matches(name, items[k].rec) <==> k == j
    {
      OnlyFileMatches(l, name, j, k);
    }
  }

  /** What opening the item of a file visit sets up. */
  lemma FileVisit(mem: Memory, l: Layout, j: nat)
    requires Sane(l) && OnDisk(mem, l) && j < |Visits(l, 0)|
    requires var v := Visits(l, 0)[j]; v.At? && v.e.FileAt?
    ensures FileShown(mem, Visits(l, 0), j)
  {
    hide Visits, Sane, OnDisk, Shows, RecordOf;
    VisitsAgree(l, 0, j);
    FilesShown(mem, l, 0, j);
    VisitFields(l, 0, j);
  }

  // ---------------------------------------------------------------- flat directories

  /** `e` is where file `n` was placed. */
  ghost predicate Places(e: Entry, n: Node) {
    && n.File? && e.FileAt? && e.name == n.name && e.data == n.data
    && (e.last + 1 - e.first) % U64 == n.size && |n.data| <= n.size
  }

  lemma {:induction false} PlaceFiles(bs: nat, base: nat, rest: seq<Node>, c: Cursor)
    requires bs > 0 && AllSized(bs, base, rest, c) && forall n :: n in rest ==> n.File?
    ensures
      var c' := Place(bs, base, rest, c);
      && (forall k :: 0 <= k < |c.done| ==> c'.done[k] == c.done[k])
      && forall k :: 0 <= k < |rest| ==> Places(c'.done[|c.done| + k], rest[k])
    decreases rest
  {
    hide Align;
    if rest != [] {
      var n, c1 := rest[0], PlaceOne(bs, base, rest[0], c);
      SizeBack(c.rpos, n.size);
      assert Places(c1.done[|c.done|], n);
      PlaceFiles(bs, base, rest[1..], c1);
      var c' := Place(bs, base, rest, c);
      forall k | 0 <= k < |rest|
        ensures Places(c'.done[|c.done| + k], rest[k])
      {
        if k > 0 { assert rest[1..][k - 1] == rest[k]; }
      }
    }
  }

  lemma {:induction false} FlatVisitsFrom(l: Layout, k: nat)
    requires k <= |l.entries| && forall i :: 0 <= i < |l.entries| ==> l.entries[i].FileAt?
    ensures |VisitsFrom(l, k, 0)| == |l.entries| - k
    ensures forall i :: k <= i < |l.entries| ==> VisitsFrom(l, k, 0)[i - k] == At(l.entries[i], l.base, 0)
    decreases |l.entries| - k
  {
    if k < |l.entries| {
      FlatVisitsFrom(l, k + 1);
      assert Below(l.entries[k], 0) == [];
    }
  }

  /** Scanning a flat directory visits its head, then its files in order. */
  lemma FlatVisits(bs: nat, ustart: nat, children: seq<Node>)
    requires bs > 0 && TreeOk(bs, 0, ustart, children) && forall n :: n in children ==> n.File?
    ensures
      var vs := Visits(Alloc(bs, 0, ustart, children), 0);
      && |vs| == |children| + 1 && vs[0].Head?
      && forall i :: 0 < i < |vs| ==> vs[i].At? && Places(vs[i].e, children[i - 1])
  {
    var l := Alloc(bs, 0, ustart, children);
    var rpos := ustart + Align(bs, RECORD * (|children| + 1));
    PlaceFiles(bs, 0, children, Cursor(rpos, rpos, []));
    assert forall i :: 0 <= i < |children| ==> Places(l.entries[i], children[i]);
    FlatVisitsFrom(l, 0);
    hide Alloc, VisitsFrom, TreeOk, Places;
    var vs := Visits(l, 0);
    forall i | 0 < i < |vs|
      ensures vs[i].At? && Places(vs[i].e, children[i - 1])
    {
      assert vs[i] == At(l.entries[i - 1], l.base, 0);
    }
  }

  /** In a flat directory of distinct names every file is the only one of its name. */
  lemma FlatOnlyFile(bs: nat, ustart: nat, children: seq<Node>, k: nat)
    requires bs > 0 && TreeOk(bs, 0, ustart, children) && k < |children|
    requires forall n :: n in children ==> n.File? && NameOk(n.name)
    requires forall a, b :: 0 <= a < b < |children| ==> children[a].name != children[b].name
    ensures
      var vs := Visits(Alloc(bs, 0, ustart, children), 0);
      OnlyFile(vs, children[k].name, k + 1) && Places(vs[k + 1].e, children[k])
  {
    hide Alloc, Visits, TreeOk, Places, NameOk;
    FlatVisits(bs, ustart, children);
    var vs := Visits(Alloc(bs, 0, ustart, children), 0);
    forall i | 0 < i < |vs|
      ensures vs[i].At? && vs[i].e.FileAt? && NameOk(vs[i].e.name) && vs[i].e.name == children[i - 1].name
    {
      PlacesName(vs[i].e, children[i - 1]);
      assert children[i - 1] in children;
    }
    assert vs[k + 1].e.name == children[k].name;
  }

  lemma PlacesName(e: Entry, n: Node)
    requires Places(e, n)
    ensures e.FileAt? && e.name == n.name
  {
  }

  /**
   * The flat case in terms of the input directory alone: distinct blank-free names of at most 19 bytes,
   * reservations no smaller than the files. Reading returns the file, zero-filled, then nothing.
   */
  method BuildAndReadFlat(bs: nat, ustart: nat, children: seq<Node>, k: nat, sizes: seq<nat>)
    returns (ret: int, data: seq<Byte>)
    requires bs > 0 && Flat(bs, ustart, children) && k < |children|
    requires forall n :: n in children ==> NameOk(n.name)
    requires forall a, b :: 0 <= a < b < |children| ==> children[a].name != children[b].name
    requires children[k].name != DOT && PiecesFit(sizes, children[k].size)
    ensures ret == 0 && |children[k].data| <= children[k].size
    ensures
      var all := children[k].data + Zeros(children[k].size - |children[k].data|);
      data == all[..if Sum(sizes) < |all| then Sum(sizes) else |all|]
  {
    FlatTreeOk(bs, ustart, children);
    hide Alloc, TreeOk, Visits, OnlyFile, Span;
    FlatOnlyFile(bs, ustart, children, k);
    assert NameOk(children[k].name);
    OnlyFileIsFile(Visits(Alloc(bs, 0, ustart, children), 0), children[k].name, k + 1);
    ghost var e := Visits(Alloc(bs, 0, ustart, children), 0)[k + 1].e;
    assert Contents(e) == children[k].data + Zeros(children[k].size - |children[k].data|);
    ret, data := BuildAndRead(bs, ustart, children, children[k].name, sizes, k + 1);
  }
}
