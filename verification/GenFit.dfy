/**
 * When exactly a tree is laid out without overlap: the builder reserves a subdirectory's last address
 * as its size, which is less than it uses, so what saves the next entry is the rounding to blocks.
 */
module GenFit {
  import opened Bytes
  import opened Sdb
  import opened GenSdbfs
  import opened GenImage
  import opened GenLayout

  // ---------------------------------------------------------------- only clear trees are chains

  /** Cutting a chain: the front ends where the back begins. */
  lemma {:induction false} ChainCut(a: seq<Chunk>, b: seq<Chunk>, lo: nat, hi: nat)
    requires Chain(a + b, lo, hi) && b != []
    ensures Chain(a, lo, b[0].pos) && Chain(b, b[0].pos, hi)
    decreases |b|
  {
    var n := |b| - 1;
    assert (a + b)[..|a + b| - 1] == a + b[..n];
    if n == 0 {
      assert a + [] == a && b[..0] == [];
      assert Chain(b[..0], b[0].pos, b[0].pos);
    } else {
      ChainCut(a, b[..n], lo, b[n].pos);
    }
  }

  /** Every entry writes something, at first where it begins. */
  lemma EntryBegins(bs: nat, base: nat, n: Node, c: Cursor)
    requires bs > 0 && n.pos == Sequential
    ensures
      var ws := OneWrites(base, PlaceOne(bs, base, n, c).done[|c.done|]);
      ws != [] && ws[0].pos == base + c.rpos
  {
  }

  lemma WritesSomething(base: nat, e: Entry)
    ensures OneWrites(base, e) != []
  {
  }

  /** What entry `k` writes is a chain that ends where entry `k + 1` begins, or where everything ends. */
  lemma {:induction false} EntryInChain(pre: seq<Chunk>, base: nat, es: seq<Entry>, k: nat, lo: nat, hi: nat)
    returns (x: nat, y: nat)
    requires Chain(pre + EntryWrites(base, es), lo, hi) && k < |es|
    ensures Chain(OneWrites(base, es[k]), x, y) && y <= hi
    ensures k + 1 < |es| ==> OneWrites(base, es[k + 1]) != [] && y == OneWrites(base, es[k + 1])[0].pos
    ensures k + 1 == |es| ==> y == hi
    decreases |es|
  {
    hide OneWrites, Chain;
    var n := |es| - 1;
    var front, last := es[..n], OneWrites(base, es[n]);
    WritesSomething(base, es[n]);
    ConcatAssociative(pre, EntryWrites(base, front), last);
    ChainCut(pre + EntryWrites(base, front), last, lo, hi);
    ChainOrdered(last, last[0].pos, hi);
    if k == n {
      x, y := last[0].pos, hi;
    } else {
      x, y := EntryInChain(pre, base, front, k, lo, last[0].pos);
    }
  }

  /** A tree whose pieces lie in disjoint ranges one behind the other is clear, and ends where they end. */
  lemma {:induction false} ChainedIsClear(bs: nat, base: nat, ustart: nat, children: seq<Node>, lo: nat, hi: nat)
    requires bs > 0 && TreeSized(bs, base, ustart, children)
    requires Chain(Writes(Alloc(bs, base, ustart, children)), lo, hi)
    ensures TreeClear(bs, base, ustart, children) && EndOf(Alloc(bs, base, ustart, children)) <= hi
    decreases children, 1
  {
    hide Align, Chain, AllSized, AllClear, Place, EntryWrites, EntriesEnd, TableBytes;
    var l := Alloc(bs, base, ustart, children);
    var rpos := ustart + Align(bs, RECORD * (|children| + 1));
    var c := Cursor(rpos, rpos, []);
    var table := [Chunk(base + ustart, |TableOf(l)|, TableOf(l))];
    EntriesAreClear(bs, base, children, c, table, lo, hi);
    ChainBounds(Writes(l), lo, hi, 0);
    EndsWithin(base, l.entries, base + ustart + RECORD * (|children| + 1), hi);
  }

  lemma {:induction false} EntriesAreClear(bs: nat, base: nat, rest: seq<Node>, c: Cursor,
                                           pre: seq<Chunk>, lo: nat, hi: nat)
    requires bs > 0 && AllSized(bs, base, rest, c)
    requires Chain(pre + EntryWrites(base, Place(bs, base, rest, c).done), lo, hi)
    ensures AllClear(bs, base, rest, c)
    ensures
      var es := Place(bs, base, rest, c).done;
      forall k :: |c.done| <= k < |es| ==> OneEnd(base, es[k]) <= hi
    decreases rest, 0
  {
    hide Chain, OneSized, OneClear, PlaceOne, EntryWrites, OneEnd, OneWrites;
    if rest != [] {
      var es, k := Place(bs, base, rest, c).done, |c.done|;
      var c1 := PlaceOne(bs, base, rest[0], c);
      Keeps(bs, base, rest[1..], c1);
      assert es[k] == c1.done[k];
      var x, y := EntryInChain(pre, base, es, k, lo, hi);
      if |rest| > 1 {
        var c2 := PlaceOne(bs, base, rest[1], c1);
        Keeps(bs, base, rest[1..][1..], c2);
        assert es[k + 1] == c2.done[k + 1];
        SizedIsSequential(bs, base, rest[1], c1);
        EntryBegins(bs, base, rest[1], c1);
      }
      OneIsClear(bs, base, rest[0], c, |rest| > 1, x, y);
      EntriesAreClear(bs, base, rest[1..], c1, pre, lo, hi);
    }
  }

  lemma SizedIsSequential(bs: nat, base: nat, n: Node, c: Cursor)
    requires bs > 0 && OneSized(bs, base, n, c)
    ensures n.pos == Sequential
  {
  }

  lemma {:induction false} OneIsClear(bs: nat, base: nat, n: Node, c: Cursor, followed: bool, x: nat, y: nat)
    requires bs > 0 && OneSized(bs, base, n, c)
    requires Chain(OneWrites(base, PlaceOne(bs, base, n, c).done[|c.done|]), x, y)
    requires followed ==> y == base + PlaceOne(bs, base, n, c).rpos
    ensures OneClear(bs, base, n, c, followed) && OneEnd(base, PlaceOne(bs, base, n, c).done[|c.done|]) <= y
    decreases n, 2
  {
    hide Align, TreeSized, TreeClear, Alloc, EndOf, Writes, Chain;
    if n.Dir? {
      ChainedIsClear(bs, base + c.rpos, 0, n.children, x, y);
    } else {
      FileIsClear(bs, base, n, c, x, y);
    }
  }

  lemma FileIsClear(bs: nat, base: nat, n: Node, c: Cursor, x: nat, y: nat)
    requires bs > 0 && n.File? && OneSized(bs, base, n, c)
    requires Chain(OneWrites(base, PlaceOne(bs, base, n, c).done[|c.done|]), x, y)
    ensures OneEnd(base, PlaceOne(bs, base, n, c).done[|c.done|]) <= y
  {
    hide Align, Chain;
    SizeBack(c.rpos, n.size);
    ChainBounds(OneWrites(base, PlaceOne(bs, base, n, c).done[|c.done|]), x, y, 0);
  }

  lemma {:induction false} EndsWithin(base: nat, es: seq<Entry>, start: nat, hi: nat)
    requires start <= hi && forall k :: 0 <= k < |es| ==> OneEnd(base, es[k]) <= hi
    ensures EntriesEnd(base, es, start) <= hi
    decreases |es|
  {
    hide OneEnd;
    if es != [] {
      EndsWithin(base, es[..|es| - 1], start, hi);
    }
  }

  /** The ranges are disjoint, one behind the other, from `lo` on. */
  ghost predicate InDisjointRanges(ws: seq<Chunk>, lo: nat) {
    exists hi: nat :: Chain(ws, lo, hi)
  }

  /**
   * Allocation disjointness, exactly: what a sized tree of any depth writes, tables and files, lies in
   * disjoint ranges one behind the other if and only if the tree is clear.
   */
  lemma DisjointExactly(bs: nat, base: nat, ustart: nat, children: seq<Node>)
    requires bs > 0 && TreeSized(bs, base, ustart, children)
    ensures
      InDisjointRanges(Writes(Alloc(bs, base, ustart, children)), base + ustart)
      <==> TreeClear(bs, base, ustart, children)
  {
    hide TreeSized, TreeClear, Alloc, Writes, Chain, EndOf;
    var l := Alloc(bs, base, ustart, children);
    if TreeClear(bs, base, ustart, children) {
      AllocChains(bs, base, ustart, children);
    }
    if InDisjointRanges(Writes(l), base + ustart) {
      var hi: nat :| Chain(Writes(l), base + ustart, hi);
      ChainedIsClear(bs, base, ustart, children, base + ustart, hi);
    }
  }

  // ---------------------------------------------------------------- what a caller can check

  /** First offset behind everything in a directory, counted from its beginning. */
  ghost function Used(bs: nat, children: seq<Node>): nat
    requires bs > 0
  {
    EndOf(Alloc(bs, 0, 0, children))
  }

  /** What a directory gets: the size asked for, but at least its last address. */
  ghost function Room(bs: nat, size: nat, children: seq<Node>): nat
    requires bs > 0
  {
    Max(Alloc(bs, 0, 0, children).last, size)
  }

  /** Every directory that is followed by an entry uses no more than it gets, rounded up to blocks. */
  ghost predicate TreeFits(bs: nat, children: seq<Node>)
    requires bs > 0
    decreases children, 1
  {
    children == [] ||
    (&& OneFits(bs, children[0], |children| > 1)
     && TreeFits(bs, children[1..]))
  }

  ghost predicate OneFits(bs: nat, n: Node, followed: bool)
    requires bs > 0
    decreases n, 2
  {
    n.Dir? ==>
      && TreeFits(bs, n.children)
      && (followed ==> Used(bs, n.children) <= Align(bs, Room(bs, n.size, n.children)))
  }

  /** Where a directory lies changes nothing about it but its base. */
  lemma {:induction false} AllocShifts(bs: nat, base: nat, children: seq<Node>)
    requires bs > 0
    ensures Alloc(bs, base, 0, children).last == Alloc(bs, 0, 0, children).last
    ensures EndOf(Alloc(bs, base, 0, children)) == base + Used(bs, children)
    decreases children, 1
  {
    hide Align, Place, EntriesEnd;
    var table := RECORD * (|children| + 1);
    var rpos := Align(bs, table);
    NothingPlaced(base, base + table);
    NothingPlaced(0, table);
    PlaceShifts(bs, base, table, children, Cursor(rpos, rpos, []), Cursor(rpos, rpos, []));
  }

  /** Same cursor, same end relative to the base. */
  ghost predicate Shifted(base: nat, start: nat, c: Cursor, c0: Cursor) {
    && c.rpos == c0.rpos && c.last == c0.last && |c.done| == |c0.done|
    && EntriesEnd(base, c.done, base + start) == base + EntriesEnd(0, c0.done, start)
  }

  lemma {:induction false} PlaceShifts(bs: nat, base: nat, start: nat, rest: seq<Node>, c: Cursor, c0: Cursor)
    requires bs > 0 && Shifted(base, start, c, c0)
    ensures Shifted(base, start, Place(bs, base, rest, c), Place(bs, 0, rest, c0))
    decreases rest, 0
  {
    hide Shifted, PlaceOne;
    if rest != [] {
      PlaceOneShifts(bs, base, start, rest[0], c, c0);
      PlaceShifts(bs, base, start, rest[1..], PlaceOne(bs, base, rest[0], c), PlaceOne(bs, 0, rest[0], c0));
    }
  }

  lemma {:induction false} PlaceOneShifts(bs: nat, base: nat, start: nat, n: Node, c: Cursor, c0: Cursor)
    requires bs > 0 && Shifted(base, start, c, c0)
    ensures Shifted(base, start, PlaceOne(bs, base, n, c), PlaceOne(bs, 0, n, c0))
    decreases n, 2
  {
    hide Align, Alloc, EndOf;
    if n.Dir? {
      AllocShifts(bs, base + c.rpos, n.children);
      AllocShifts(bs, c.rpos, n.children);
    }
    var c1, c2 := PlaceOne(bs, base, n, c), PlaceOne(bs, 0, n, c0);
    assert c1.done[..|c.done|] == c.done && c2.done[..|c0.done|] == c0.done;
    assert OneEnd(base, c1.done[|c.done|]) == base + OneEnd(0, c2.done[|c0.done|]);
  }

  /** Rounding up commutes with moving by whole blocks. */
  lemma AlignShifts(bs: nat, a: nat, x: nat)
    requires bs > 0 && a % bs == 0 && a + x + bs - 1 < UINT
    ensures Align(bs, a + x) == a + Align(bs, x)
  {
    hide Align;
    AlignBounds(bs, x);
    AlignBounds(bs, a + x);
    AlignAligned(bs, x);
    AlignAligned(bs, a + x);
    SumAligned(bs, a, Align(bs, x));
    var p, q := Align(bs, a + x), a + Align(bs, x);
    var hi, lo := Max(p, q), Min(p, q);
    DifferenceAligned(bs, hi, lo);
    SmallMultiple(bs, hi - lo);
  }

  lemma SmallMultiple(bs: nat, d: nat)
    requires d < bs && d % bs == 0
    ensures d == 0
  {
  }

  /** At a block boundary, contents stay clear of the next entry if and only if they fit the rounded room. */
  lemma DirectoryFits(bs: nat, rpos: nat, room: nat, used: nat)
    requires bs > 0 && rpos % bs == 0 && rpos + room + bs - 1 < UINT
    ensures rpos + used <= Align(bs, rpos + room) <==> used <= Align(bs, room)
  {
    hide Align;
    AlignShifts(bs, rpos, room);
  }

  /** For a table at a block boundary, being clear is a matter of sizes alone, at every depth. */
  lemma {:induction false} ClearIfFits(bs: nat, base: nat, ustart: nat, children: seq<Node>)
    requires bs > 0 && ustart % bs == 0 && TreeSized(bs, base, ustart, children)
    ensures TreeClear(bs, base, ustart, children) <==> TreeFits(bs, children)
    decreases children, 1
  {
    hide Align, AllSized, AllClear, TreeFits;
    var table := RECORD * (|children| + 1);
    AlignAligned(bs, table);
    SumAligned(bs, ustart, Align(bs, table));
    var rpos := ustart + Align(bs, table);
    AllClearIfFit(bs, base, children, Cursor(rpos, rpos, []));
  }

  lemma {:induction false} AllClearIfFit(bs: nat, base: nat, rest: seq<Node>, c: Cursor)
    requires bs > 0 && c.rpos % bs == 0 && AllSized(bs, base, rest, c)
    ensures AllClear(bs, base, rest, c) <==> TreeFits(bs, rest)
    decreases rest, 0
  {
    hide PlaceOne, OneSized, OneClear, OneFits;
    if rest != [] {
      OneClearIfFits(bs, base, rest[0], c, |rest| > 1);
      AllClearIfFit(bs, base, rest[1..], PlaceOne(bs, base, rest[0], c));
    }
  }

  lemma {:induction false} OneClearIfFits(bs: nat, base: nat, n: Node, c: Cursor, followed: bool)
    requires bs > 0 && c.rpos % bs == 0 && OneSized(bs, base, n, c)
    ensures OneClear(bs, base, n, c, followed) <==> OneFits(bs, n, followed)
    ensures PlaceOne(bs, base, n, c).rpos % bs == 0
    decreases n, 2
  {
    hide Align, Alloc, EndOf, TreeSized, TreeClear, TreeFits, Used;
    if n.Dir? {
      AllocShifts(bs, base + c.rpos, n.children);
      var room := Room(bs, n.size, n.children);
      AlignAligned(bs, c.rpos + room);
      ZeroAligned(bs);
      ClearIfFits(bs, base + c.rpos, 0, n.children);
      DirectoryFits(bs, c.rpos, room, Used(bs, n.children));
    } else {
      AlignAligned(bs, c.rpos + n.size);
    }
  }

  lemma ZeroAligned(bs: nat)
    requires bs > 0
    ensures 0 % bs == 0
  {
  }

  /**
   * The exact condition in terms of the input tree: what it writes lies in disjoint ranges one behind the
   * other if and only if every directory that is followed by an entry fits its rounded room.
   */
  lemma DisjointIfFits(bs: nat, ustart: nat, children: seq<Node>)
    requires bs > 0 && ustart % bs == 0 && TreeSized(bs, 0, ustart, children)
    ensures InDisjointRanges(Writes(Alloc(bs, 0, ustart, children)), ustart) <==> TreeFits(bs, children)
  {
    hide TreeSized, TreeClear, TreeFits, InDisjointRanges, Writes, Alloc;
    DisjointExactly(bs, 0, ustart, children);
    ClearIfFits(bs, 0, ustart, children);
  }

  // ---------------------------------------------------------------- trees that fit

  /** Every directory asks for a size beyond every offset in use below it. */
  ghost predicate Roomy(bs: nat, children: seq<Node>)
    requires bs > 0
    decreases children, 1
  {
    children == [] ||
    (&& (children[0].Dir? ==> Used(bs, children[0].children) <= children[0].size && Roomy(bs, children[0].children))
     && Roomy(bs, children[1..]))
  }

  /** A tree of roomy directories fits, whatever its depth and the block size. */
  lemma {:induction false} RoomyFits(bs: nat, base: nat, rest: seq<Node>, c: Cursor)
    requires bs > 0 && AllSized(bs, base, rest, c) && Roomy(bs, rest)
    ensures TreeFits(bs, rest)
    decreases rest, 0
  {
    hide PlaceOne, Used, Align, Alloc;
    if rest != [] {
      var n := rest[0];
      if n.Dir? {
        AllocShifts(bs, base + c.rpos, n.children);
        AlignBounds(bs, Room(bs, n.size, n.children));
        var rpos := Align(bs, RECORD * (|n.children| + 1));
        assert OneSized(bs, base, n, c) && TreeSized(bs, base + c.rpos, 0, n.children);
        RoomyFits(bs, base + c.rpos, n.children, Cursor(rpos, rpos, []));
      }
      RoomyFits(bs, base, rest[1..], PlaceOne(bs, base, n, c));
    }
  }

  /** So with sizes strictly greater than the true last offsets everything is disjoint. */
  lemma RoomyDisjoint(bs: nat, ustart: nat, children: seq<Node>)
    requires bs > 0 && ustart % bs == 0 && TreeSized(bs, 0, ustart, children) && Roomy(bs, children)
    ensures TreeOk(bs, 0, ustart, children) && InDisjointRanges(Writes(Alloc(bs, 0, ustart, children)), ustart)
  {
    hide AllSized, AllClear, TreeFits, Roomy, InDisjointRanges, Writes, Alloc, Align;
    var rpos := ustart + Align(bs, RECORD * (|children| + 1));
    RoomyFits(bs, 0, children, Cursor(rpos, rpos, []));
    DisjointIfFits(bs, ustart, children);
    ClearIfFits(bs, 0, ustart, children);
  }

  /** Space for files one behind the other, each with its rounding. */
  function Span(bs: nat, files: seq<Node>): nat {
    if files == [] then 0 else files[0].size + bs + Span(bs, files[1..])
  }

  /** A directory of files that fit their reservations, without demanded positions, below 2^32. */
  ghost predicate Flat(bs: nat, ustart: nat, children: seq<Node>) {
    && (forall n :: n in children ==> n.File? && n.pos == Sequential && |n.data| <= n.size)
    && |children| + 1 < 0x1_0000 && ustart + RECORD * (|children| + 1) + bs + Span(bs, children) < UINT
  }

  lemma {:induction false} FlatSized(bs: nat, base: nat, rest: seq<Node>, c: Cursor)
    requires bs > 0 && c.rpos + Span(bs, rest) < UINT
    requires forall n :: n in rest ==> n.File? && n.pos == Sequential && |n.data| <= n.size
    ensures AllSized(bs, base, rest, c) && AllClear(bs, base, rest, c)
    decreases rest
  {
    if rest != [] {
      hide Align;
      AlignBounds(bs, c.rpos + rest[0].size);
      FlatSized(bs, base, rest[1..], PlaceOne(bs, base, rest[0], c));
    }
  }

  /** Every flat directory reserves enough. */
  lemma FlatTreeOk(bs: nat, ustart: nat, children: seq<Node>)
    requires bs > 0 && Flat(bs, ustart, children)
    ensures TreeOk(bs, 0, ustart, children)
  {
    hide Align;
    AlignBounds(bs, RECORD * (|children| + 1));
    var rpos := ustart + Align(bs, RECORD * (|children| + 1));
    FlatSized(bs, 0, children, Cursor(rpos, rpos, []));
  }

  // ---------------------------------------------------------------- trees that do not fit

  /**
   * The failing family has members: a subdirectory with a single one-byte file, and a file behind it.
   * Both files are placed at absolute address 320, so the second overwrites the first.
   */
  lemma SubdirectoryOverlap(a: Byte, b: Byte)
    ensures
      var inner := File([0x61], 0, [a], 1, Sequential);
      var tree := [Dir([0x64], 0, Sequential, [inner]), File([0x62], 0, [b], 1, Sequential)];
      var l := Alloc(64, 0, 0, tree);
      && |l.entries| == 2 && l.entries[0].DirAt? && |l.entries[0].sub.entries| == 1
      && OneWrites(l.entries[0].sub.base, l.entries[0].sub.entries[0]) == [Chunk(320, 1, [a])]
      && OneWrites(l.base, l.entries[1]) == [Chunk(320, 1, [b])]
  {
    var inner := File([0x61], 0, [a], 1, Sequential);
    var files := [inner];
    var c0 := Cursor(128, 128, []);
    var e0 := FileAt([0x61], 0, 128, 128, Sequential, [a]);
    assert PlaceOne(64, 192, inner, c0) == Cursor(192, 128, [e0]);
    assert files[1..] == [];
    assert Place(64, 192, [], Cursor(192, 128, [e0])) == Cursor(192, 128, [e0]);
    assert Alloc(64, 192, 0, files) == Layout(192, 0, 128, [e0]);

    var dir, next := Dir([0x64], 0, Sequential, files), File([0x62], 0, [b], 1, Sequential);
    var tree := [dir, next];
    var d0 := Cursor(192, 192, []);
    var e1 := DirAt([0x64], 192, 319, Sequential, 192, Layout(192, 0, 128, [e0]));
    var e2 := FileAt([0x62], 0, 320, 320, Sequential, [b]);
    assert PlaceOne(64, 0, dir, d0) == Cursor(320, 319, [e1]);
    assert PlaceOne(64, 0, next, Cursor(320, 319, [e1])) == Cursor(384, 320, [e1, e2]);
    assert tree[1..] == [next] && [next][1..] == [];
    assert Place(64, 0, [], Cursor(384, 320, [e1, e2])) == Cursor(384, 320, [e1, e2]);
    assert Place(64, 0, [next], Cursor(320, 319, [e1])) == Cursor(384, 320, [e1, e2]);
    assert Place(64, 0, tree, d0) == Cursor(384, 320, [e1, e2]);
    assert Alloc(64, 0, 0, tree) == Layout(0, 0, 320, [e1, e2]);
  }

  /**
   * The shortfall adds up with depth: here the outer directory gets 255 bytes, which is no whole number of
   * blocks, and uses 257. Both files are placed at absolute address 448.
   */
  lemma NestedOverlap(a: Byte, b: Byte)
    ensures
      var inner := Dir([0x65], 0, Sequential, [File([0x61], 0, [a], 1, Sequential)]);
      var tree := [Dir([0x64], 0, Sequential, [inner]), File([0x62], 0, [b], 1, Sequential)];
      var l := Alloc(64, 0, 0, tree);
      && |l.entries| == 2 && l.entries[0].DirAt? && |l.entries[0].sub.entries| == 1
      && OneWrites(l.base, l.entries[1]) == [Chunk(448, 1, [b])]
      && var e := l.entries[0].sub.entries[0];
         e.DirAt? && |e.sub.entries| == 1 && OneWrites(e.sub.base, e.sub.entries[0]) == [Chunk(448, 1, [a])]
  {
    var file := File([0x61], 0, [a], 1, Sequential);
    var e0 := FileAt([0x61], 0, 128, 128, Sequential, [a]);
    assert PlaceOne(64, 320, file, Cursor(128, 128, [])) == Cursor(192, 128, [e0]);
    assert [file][1..] == [];
    assert Place(64, 320, [], Cursor(192, 128, [e0])) == Cursor(192, 128, [e0]);
    assert Alloc(64, 320, 0, [file]) == Layout(320, 0, 128, [e0]);

    var inner := Dir([0x65], 0, Sequential, [file]);
    var e1 := DirAt([0x65], 128, 255, Sequential, 128, Layout(320, 0, 128, [e0]));
    assert PlaceOne(64, 192, inner, Cursor(128, 128, [])) == Cursor(256, 255, [e1]);
    assert [inner][1..] == [];
    assert Place(64, 192, [], Cursor(256, 255, [e1])) == Cursor(256, 255, [e1]);
    assert Alloc(64, 192, 0, [inner]) == Layout(192, 0, 255, [e1]);

    var outer, next := Dir([0x64], 0, Sequential, [inner]), File([0x62], 0, [b], 1, Sequential);
    var e2 := DirAt([0x64], 192, 446, Sequential, 192, Layout(192, 0, 255, [e1]));
    var e3 := FileAt([0x62], 0, 448, 448, Sequential, [b]);
    assert PlaceOne(64, 0, outer, Cursor(192, 192, [])) == Cursor(448, 446, [e2]);
    assert PlaceOne(64, 0, next, Cursor(448, 446, [e2])) == Cursor(512, 448, [e2, e3]);
    assert [outer, next][1..] == [next] && [next][1..] == [];
    assert Place(64, 0, [], Cursor(512, 448, [e2, e3])) == Cursor(512, 448, [e2, e3]);
    assert Place(64, 0, [next], Cursor(448, 446, [e2])) == Cursor(512, 448, [e2, e3]);
    assert Place(64, 0, [outer, next], Cursor(192, 192, [])) == Cursor(512, 448, [e2, e3]);
    assert Alloc(64, 0, 0, [outer, next]) == Layout(0, 0, 448, [e2, e3]);
  }
}
