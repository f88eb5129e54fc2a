/**
 * Where things end up: in a tree that reserves enough for every subdirectory, tables and files lie one
 * behind the other without overlap.
 */
module GenLayout {
  import opened Bytes
  import opened Sdb
  import opened GenSdbfs
  import opened GenImage

  // ---------------------------------------------------------------- alignment

  lemma AlignBounds(bs: nat, x: nat)
    requires bs > 0 && x + bs - 1 < UINT
    ensures x <= Align(bs, x) < x + bs
  {
    var y := x + bs - 1;
    assert y % UINT == y;
    assert 0 <= y % bs < bs;
  }

  lemma AlignAligned(bs: nat, x: nat)
    requires bs > 0 && x + bs - 1 < UINT
    ensures Align(bs, x) % bs == 0
  {
    var y := x + bs - 1;
    assert y % UINT == y;
    MultipleBelow(y, bs);
  }

  lemma MultipleBelow(y: nat, bs: nat)
    requires bs > 0
    ensures (y - y % bs) % bs == 0
  {
    RemainderOf(y - y % bs, bs, y / bs, 0);
  }

  // ---------------------------------------------------------------- chains

  /** The reserved ranges lie within `[lo, hi)`, one behind the other, and hold what is written into them. */
  ghost predicate Chain(ws: seq<Chunk>, lo: nat, hi: nat) {
    if ws == [] then lo <= hi
    else
      var w := ws[|ws| - 1];
      |w.bytes| <= w.len && w.pos + w.len <= hi && Chain(ws[..|ws| - 1], lo, w.pos)
  }

  lemma ChainWider(ws: seq<Chunk>, lo: nat, hi: nat, hi': nat)
    requires Chain(ws, lo, hi) && hi <= hi'
    ensures Chain(ws, lo, hi')
  {
  }

  lemma {:induction false} ChainAppend(a: seq<Chunk>, b: seq<Chunk>, lo: nat, mid: nat, hi: nat)
    requires Chain(a, lo, mid) && Chain(b, mid, hi)
    ensures Chain(a + b, lo, hi)
    decreases |b|
  {
    if b == [] {
      assert a + b == a;
      ChainWider(a, lo, mid, hi);
    } else {
      var w := b[|b| - 1];
      ChainAppend(a, b[..|b| - 1], lo, mid, w.pos);
      assert (a + b)[..|a + b| - 1] == a + b[..|b| - 1];
    }
  }

  lemma ChainOne(w: Chunk, lo: nat, hi: nat)
    requires |w.bytes| <= w.len && lo <= w.pos && w.pos + w.len <= hi
    ensures Chain([w], lo, hi)
  {
    assert [w][..0] == [];
  }

  /** In a chain, any two ranges are disjoint, and in order. */
  lemma {:induction false} ChainDisjoint(ws: seq<Chunk>, lo: nat, hi: nat, i: nat, j: nat)
    requires Chain(ws, lo, hi) && i < j < |ws|
    ensures lo <= ws[i].pos && ws[i].pos + ws[i].len <= ws[j].pos && ws[j].pos + ws[j].len <= hi
    decreases |ws|
  {
    var front := ws[..|ws| - 1];
    var w := ws[|ws| - 1];
    if j < |ws| - 1 {
      ChainDisjoint(front, lo, w.pos, i, j);
    } else {
      ChainBounds(front, lo, w.pos, i);
    }
  }

  lemma {:induction false} ChainBounds(ws: seq<Chunk>, lo: nat, hi: nat, i: nat)
    requires Chain(ws, lo, hi) && i < |ws|
    ensures lo <= ws[i].pos && ws[i].pos + ws[i].len <= hi && lo <= hi
    decreases |ws|
  {
    ChainOrdered(ws, lo, hi);
    if i < |ws| - 1 {
      ChainBounds(ws[..|ws| - 1], lo, ws[|ws| - 1].pos, i);
    } else {
      ChainOrdered(ws[..|ws| - 1], lo, ws[|ws| - 1].pos);
    }
  }

  lemma {:induction false} ChainOrdered(ws: seq<Chunk>, lo: nat, hi: nat)
    requires Chain(ws, lo, hi)
    ensures lo <= hi
    decreases |ws|
  {
    if ws != [] {
      ChainOrdered(ws[..|ws| - 1], lo, ws[|ws| - 1].pos);
    }
  }

  // ---------------------------------------------------------------- layouts of well-reserved trees

  /** First absolute address behind everything a layout reserves. */
  ghost function EndOf(l: Layout): nat
    decreases l, 1
  {
    EntriesEnd(l.base, l.entries, l.base + l.ustart + RECORD * (|l.entries| + 1))
  }

  ghost function EntriesEnd(base: nat, es: seq<Entry>, start: nat): nat
    decreases es, 0
  {
    if es == [] then start else Max(EntriesEnd(base, es[..|es| - 1], start), OneEnd(base, es[|es| - 1]))
  }

  ghost function OneEnd(base: nat, e: Entry): nat
    decreases e, 2
  {
    match e
    case FileAt(_, _, first, last, _, _) => base + first + (last + 1 - first) % U64
    case DirAt(_, _, _, _, _, sub) => EndOf(sub)
  }

  /** No position is demanded, files fit their reservation, and addresses stay below 2^32. */
  ghost predicate TreeSized(bs: nat, base: nat, ustart: nat, children: seq<Node>)
    requires bs > 0
    decreases children, 1
  {
    var table := RECORD * (|children| + 1);
    var rpos := ustart + Align(bs, table);
    && |children| + 1 < 0x1_0000 && ustart + table + bs - 1 < UINT
    && AllSized(bs, base, children, Cursor(rpos, rpos, []))
  }

  ghost predicate AllSized(bs: nat, base: nat, rest: seq<Node>, c: Cursor)
    requires bs > 0
    decreases rest, 0
  {
    rest == [] || (OneSized(bs, base, rest[0], c) && AllSized(bs, base, rest[1..], PlaceOne(bs, base, rest[0], c)))
  }

  ghost predicate OneSized(bs: nat, base: nat, n: Node, c: Cursor)
    requires bs > 0
    decreases n, 2
  {
    n.pos == Sequential &&
    match n
    case File(_, _, data, size, _) => |data| <= size && c.rpos + size + bs - 1 < UINT
    case Dir(_, size, _, children) =>
      && c.rpos + Max(Alloc(bs, base + c.rpos, 0, children).last, size) + bs - 1 < UINT && base + c.rpos < UINT
      && TreeSized(bs, base + c.rpos, 0, children)
  }

  /** The contents of every directory that is followed by an entry end in front of that entry. */
  ghost predicate TreeClear(bs: nat, base: nat, ustart: nat, children: seq<Node>)
    requires bs > 0
    decreases children, 1
  {
    var rpos := ustart + Align(bs, RECORD * (|children| + 1));
    AllClear(bs, base, children, Cursor(rpos, rpos, []))
  }

  ghost predicate AllClear(bs: nat, base: nat, rest: seq<Node>, c: Cursor)
    requires bs > 0
    decreases rest, 0
  {
    rest == [] ||
    (&& OneClear(bs, base, rest[0], c, |rest| > 1)
     && AllClear(bs, base, rest[1..], PlaceOne(bs, base, rest[0], c)))
  }

  ghost predicate OneClear(bs: nat, base: nat, n: Node, c: Cursor, followed: bool)
    requires bs > 0
    decreases n, 2
  {
    n.Dir? ==>
      && TreeClear(bs, base + c.rpos, 0, n.children)
      && (followed ==> EndOf(Alloc(bs, base + c.rpos, 0, n.children)) <= base + PlaceOne(bs, base, n, c).rpos)
  }

  ghost predicate TreeOk(bs: nat, base: nat, ustart: nat, children: seq<Node>)
    requires bs > 0
  {
    TreeSized(bs, base, ustart, children) && TreeClear(bs, base, ustart, children)
  }

  /** The chain of everything placed so far. */
  ghost predicate Progress(base: nat, ustart: nat, n: nat, table: Chunk, c: Cursor) {
    && table.pos == base + ustart && |table.bytes| <= table.len == RECORD * n
    && Chain([table] + EntryWrites(base, c.done), base + ustart, EndBefore(base, ustart, n, c))
  }

  ghost function EndBefore(base: nat, ustart: nat, n: nat, c: Cursor): nat {
    EntriesEnd(base, c.done, base + ustart + RECORD * n)
  }

  /** An entry that begins behind everything placed before. */
  lemma EntryAppended(base: nat, ustart: nat, n: nat, table: Chunk, c: Cursor, e: Entry, c': Cursor)
    requires Progress(base, ustart, n, table, c) && c'.done == c.done + [e]
    requires EndBefore(base, ustart, n, c) <= base + c.rpos
    requires Chain(OneWrites(base, e), base + c.rpos, OneEnd(base, e))
    ensures Progress(base, ustart, n, table, c') && EndBefore(base, ustart, n, c') == OneEnd(base, e)
  {
    hide Writes, EndOf, Chain, OneWrites, OneEnd;
    assert c'.done[..|c.done|] == c.done;
    var start := base + c.rpos;
    var before := [table] + EntryWrites(base, c.done);
    ChainWider(before, base + ustart, EndBefore(base, ustart, n, c), start);
    ChainAppend(before, OneWrites(base, e), base + ustart, start, OneEnd(base, e));
    ConcatAssociative([table], EntryWrites(base, c.done), OneWrites(base, e));
    ChainOrdered(OneWrites(base, e), start, OneEnd(base, e));
  }

  /** What one entry writes begins at the cursor. */
  lemma {:induction false} EntryChains(bs: nat, base: nat, node: Node, c: Cursor)
    requires bs > 0 && OneSized(bs, base, node, c) && OneClear(bs, base, node, c, false)
    ensures
      var e := PlaceOne(bs, base, node, c).done[|c.done|];
      Chain(OneWrites(base, e), base + c.rpos, OneEnd(base, e))
    decreases node, 2
  {
    hide Align, Writes, EndOf, Alloc, Chain, TreeSized, TreeClear;
    var start := base + c.rpos;
    match node {
      case File(_, _, data, size, _) =>
        SizeBack(c.rpos, size);
        ChainOne(Chunk(start, size, data), start, start + size);
      case Dir(_, _, _, children) =>
        AllocChains(bs, start, 0, children);
    }
  }

  /** Where an entry ends, if it is clear of the next one. */
  lemma EntryEnds(bs: nat, base: nat, node: Node, c: Cursor)
    requires bs > 0 && OneSized(bs, base, node, c) && OneClear(bs, base, node, c, true)
    ensures
      var c' := PlaceOne(bs, base, node, c);
      OneEnd(base, c'.done[|c.done|]) <= base + c'.rpos
  {
    hide Align, EndOf, Alloc, TreeSized, TreeClear;
    if node.File? {
      SizeBack(c.rpos, node.size);
      AlignBounds(bs, c.rpos + node.size);
    }
  }

  /** The size a reader computes from first and last address is the one reserved. */
  lemma SizeBack(first: nat, size: nat)
    requires size < UINT && first < UINT
    ensures (LastOf(first, size) + 1 - first) % U64 == size
  {
    if first + size == 0 {
    } else {
      assert LastOf(first, size) == first + size - 1;
    }
  }

  lemma {:induction false} PlaceChains(bs: nat, base: nat, ustart: nat, n: nat, table: Chunk,
                                       rest: seq<Node>, c: Cursor)
    requires bs > 0 && AllSized(bs, base, rest, c) && AllClear(bs, base, rest, c) && Progress(base, ustart, n, table, c)
    requires rest != [] ==> EndBefore(base, ustart, n, c) <= base + c.rpos
    ensures Progress(base, ustart, n, table, Place(bs, base, rest, c))
    decreases rest, 0
  {
    hide Progress, OneSized, PlaceOne, EndBefore, OneEnd, OneWrites, Chain;
    if rest != [] {
      var c1 := PlaceOne(bs, base, rest[0], c);
      ClearAnyway(bs, base, rest[0], c, |rest| > 1);
      EntryChains(bs, base, rest[0], c);
      OneMoreDone(bs, base, rest[0], c);
      EntryAppended(base, ustart, n, table, c, c1.done[|c.done|], c1);
      if |rest| > 1 { EntryEnds(bs, base, rest[0], c); }
      PlaceChains(bs, base, ustart, n, table, rest[1..], c1);
    }
  }

  lemma ClearAnyway(bs: nat, base: nat, n: Node, c: Cursor, followed: bool)
    requires bs > 0 && OneClear(bs, base, n, c, followed)
    ensures OneClear(bs, base, n, c, false)
  {
  }

  lemma OneMoreDone(bs: nat, base: nat, n: Node, c: Cursor)
    requires bs > 0
    ensures var c' := PlaceOne(bs, base, n, c); c'.done == c.done + [c'.done[|c.done|]]
  {
  }

  /**
   * Everything an allocated tree writes, from its table on, lies in disjoint ranges one behind the
   * other, each large enough.
   */
  lemma {:induction false} AllocChains(bs: nat, base: nat, ustart: nat, children: seq<Node>)
    requires bs > 0 && TreeSized(bs, base, ustart, children) && TreeClear(bs, base, ustart, children)
    ensures var l := Alloc(bs, base, ustart, children);
            Chain(Writes(l), base + ustart, EndOf(l))
    decreases children, 1
  {
    hide Align, Chain, TableBytes, AllSized, AllClear, Place, EntryWrites, EntriesEnd;
    var n := |children| + 1;
    AlignBounds(bs, RECORD * n);
    var rpos := ustart + Align(bs, RECORD * n);
    var c := Cursor(rpos, rpos, []);
    var l := Alloc(bs, base, ustart, children);
    var table := Chunk(base + ustart, |TableOf(l)|, TableOf(l));
    ChainOne(table, base + ustart, base + ustart + RECORD * n);
    NothingPlaced(base, base + ustart + RECORD * n);
    NothingWritten(base);
    assert [table] + [] == [table];
    PlaceChains(bs, base, ustart, n, table, children, c);
  }

  // ---------------------------------------------------------------- block alignment, last addresses

  /** Entries behind the first start at block boundaries, and the directory's last address bounds all of them. */
  ghost predicate AlignedBehindFirst(bs: nat, es: seq<Entry>, last: nat)
    requires bs > 0
  {
    forall k :: 0 <= k < |es| ==> (k > 0 ==> es[k].first % bs == 0) && es[k].last <= last
  }

  lemma {:induction false} PlaceAligned(bs: nat, base: nat, rest: seq<Node>, c: Cursor)
    requires bs > 0 && AllSized(bs, base, rest, c) && (c.done != [] ==> c.rpos % bs == 0)
    requires AlignedBehindFirst(bs, c.done, c.last)
    ensures AlignedBehindFirst(bs, Place(bs, base, rest, c).done, Place(bs, base, rest, c).last)
    decreases rest
  {
    hide Align;
    if rest != [] {
      var n, c1 := rest[0], PlaceOne(bs, base, rest[0], c);
      var room := if n.File? then n.size else Max(Alloc(bs, base + c.rpos, 0, n.children).last, n.size);
      AlignAligned(bs, c.rpos + room);
      assert c1.done[|c.done|].first == c.rpos && c1.done[..|c.done|] == c.done;
      PlaceAligned(bs, base, rest[1..], c1);
    }
  }

  /**
   * Every start after the first is block-aligned; the first one too if and only if the table's own
   * position is. The directory's last address bounds that of every entry.
   */
  lemma AllocAligned(bs: nat, base: nat, ustart: nat, children: seq<Node>)
    requires bs > 0 && TreeSized(bs, base, ustart, children)
    ensures var l := Alloc(bs, base, ustart, children);
            && AlignedBehindFirst(bs, l.entries, l.last)
            && (children != [] ==> (l.entries[0].first % bs == 0 <==> ustart % bs == 0))
  {
    var table := RECORD * (|children| + 1);
    AlignAligned(bs, table);
    hide Align;
    var rpos := ustart + Align(bs, table);
    var c := Cursor(rpos, rpos, []);
    PlaceAligned(bs, base, children, c);
    if children != [] {
      FirstAtCursor(bs, base, children, c);
      SumAlignedExactly(bs, ustart, Align(bs, table));
    }
  }

  lemma FirstAtCursor(bs: nat, base: nat, rest: seq<Node>, c: Cursor)
    requires bs > 0 && rest != [] && AllSized(bs, base, rest, c) && c.done == []
    ensures Place(bs, base, rest, c).done[0].first == c.rpos
  {
    hide Align, Alloc, TreeSized;
    var c1 := PlaceOne(bs, base, rest[0], c);
    assert c1.done[0].first == c.rpos;
    Keeps(bs, base, rest[1..], c1);
  }

  /** Placing more entries keeps those placed. */
  lemma {:induction false} Keeps(bs: nat, base: nat, rest: seq<Node>, c: Cursor)
    requires bs > 0
    ensures c.done <= Place(bs, base, rest, c).done
    decreases rest
  {
    if rest != [] {
      Keeps(bs, base, rest[1..], PlaceOne(bs, base, rest[0], c));
    }
  }

  lemma SumAlignedExactly(bs: nat, a: nat, b: nat)
    requires bs > 0 && b % bs == 0
    ensures (a + b) % bs == 0 <==> a % bs == 0
  {
    if a % bs == 0 {
      SumAligned(bs, a, b);
    }
    if (a + b) % bs == 0 {
      DifferenceAligned(bs, a + b, b);
    }
  }

  lemma SumAligned(bs: nat, a: nat, b: nat)
    requires bs > 0 && a % bs == 0 && b % bs == 0
    ensures (a + b) % bs == 0
  {
    var p, q := a / bs, b / bs;
    assert a == bs * p && b == bs * q;
    assert a + b == bs * (p + q);
    RemainderOf(a + b, bs, p + q, 0);
  }

  lemma DifferenceAligned(bs: nat, a: nat, b: nat)
    requires bs > 0 && a % bs == 0 && b % bs == 0 && b <= a
    ensures (a - b) % bs == 0
  {
    var p, q := a / bs, b / bs;
    assert a == bs * p && b == bs * q;
    assert a - b == bs * (p - q);
    RemainderOf(a - b, bs, p - q, 0);
  }

  lemma NothingWritten(base: nat)
    ensures EntryWrites(base, []) == []
  {
  }

  lemma NothingPlaced(base: nat, start: nat)
    ensures EntriesEnd(base, [], start) == start
  {
  }
}
