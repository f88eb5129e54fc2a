/**
 * Where each entry of a directory starts, told from the entries alone: those without a demanded position
 * follow one another, and those with one are transparent to everybody else.
 */
module GenPlaces {
  import opened Bytes
  import opened Sdb
  import opened GenSdbfs
  import opened GenLayout

  // ---------------------------------------------------------------- alignment

  /** A mask of the bits from `low` to `high` takes what is there. */
  lemma {:induction false} MaskOfBits(y: nat, low: nat, high: nat)
    requires low <= high
    ensures TwoTo(low) <= TwoTo(high)
    ensures BitAnd(y, TwoTo(high) - TwoTo(low)) == y % TwoTo(high) - y % TwoTo(high) % TwoTo(low)
    decreases low
  {
    var p, q := TwoTo(low), TwoTo(high);
    if low == 0 {
      MaskIsModulo(y, high);
    } else {
      var p', q' := TwoTo(low - 1), TwoTo(high - 1);
      MaskOfBits(y / 2, low - 1, high - 1);
      EvenMask(y, q' - p');
      HalvesModulo(y, q');
      var z := y % q;
      HalvesModulo(z, p');
      HalfOf(y / 2 % q', y % 2);
    }
  }

  lemma HalfOf(h: nat, r: nat)
    requires r < 2
    ensures (2 * h + r) / 2 == h && (2 * h + r) % 2 == r
  {
  }

  lemma EvenMask(y: nat, m: nat)
    ensures BitAnd(y, 2 * m) == 2 * BitAnd(y / 2, m)
  {
    assert 2 * m / 2 == m && 2 * m % 2 == 0;
    if y == 0 || m == 0 {
      assert BitAnd(y / 2, m) == 0;
    }
  }

  /** Rounding up to blocks of a power of two is the addition and the 32-bit mask of the source. */
  lemma AlignIsMask(bits: nat, x: nat)
    requires bits <= 32
    ensures TwoTo(bits) <= 0x1_0000_0000
    ensures Align(TwoTo(bits), x) == BitAnd(x + (TwoTo(bits) - 1), 0x1_0000_0000 - TwoTo(bits))
  {
    ThirtyTwo();
    MaskOfBits(x + (TwoTo(bits) - 1), bits, 32);
    hide TwoTo, BitAnd;
  }

  lemma ThirtyTwo()
    ensures TwoTo(32) == 0x1_0000_0000
  {
    assert TwoTo(8) == 0x100 by {
      assert TwoTo(4) == 0x10;
      assert TwoTo(6) == 4 * TwoTo(4);
    }
    assert TwoTo(12) == 0x10 * TwoTo(8) by { assert TwoTo(10) == 4 * TwoTo(8); }
    assert TwoTo(16) == 0x10 * TwoTo(12) by { assert TwoTo(14) == 4 * TwoTo(12); }
    assert TwoTo(20) == 0x10 * TwoTo(16) by { assert TwoTo(18) == 4 * TwoTo(16); }
    assert TwoTo(24) == 0x10 * TwoTo(20) by { assert TwoTo(22) == 4 * TwoTo(20); }
    assert TwoTo(28) == 0x10 * TwoTo(24) by { assert TwoTo(26) == 4 * TwoTo(24); }
    assert TwoTo(32) == 0x10 * TwoTo(28) by { assert TwoTo(30) == 4 * TwoTo(28); }
  }

  // ---------------------------------------------------------------- where entries start

  /** Space an entry takes: what is reserved for it, or its own last address if it is a directory and that is more. */
  function Room(n: Node, e: Entry): nat {
    if n.Dir? && e.DirAt? && e.sub.last > n.size then e.sub.last else n.size
  }

  /**
   * The block boundary behind the last of the first `k` entries without a demanded position; behind the table if
   * there is none. Demanded positions are passed over.
   */
  function Frontier(bs: nat, start: nat, ns: seq<Node>, es: seq<Entry>, k: nat): nat
    requires bs > 0 && k <= |ns| && k <= |es|
  {
    if k == 0 then start
    else if ns[k - 1].pos.UserAt? then Frontier(bs, start, ns, es, k - 1)
    else Align(bs, es[k - 1].first + Room(ns[k - 1], es[k - 1]))
  }

  /** Entry `k` is node `k`, at its demanded position or at the frontier; its last byte is the last of its room. */
  predicate Placed(bs: nat, base: nat, start: nat, ns: seq<Node>, es: seq<Entry>, k: nat)
    requires bs > 0 && k < |ns| && k < |es|
  {
    var n, e, at := ns[k], es[k], Frontier(bs, start, ns, es, k);
    && e.name == n.name && e.pos == n.pos
    && e.first == (if n.pos.UserAt? then n.pos.start else at)
    && e.last == (e.first + Room(n, e) - 1) % 0x1_0000_0000_0000_0000
    && match n
       case File(_, flags, data, _, _) => e.FileAt? && e.flags == flags && e.data == data
       case Dir(_, _, _, children) => e.DirAt? && e.child == at && e.sub == Alloc(bs, base + at, 0, children)
  }

  /** Looks only at the first entries. */
  lemma {:induction false} FrontierOfPrefix(
    bs: nat, start: nat, ns: seq<Node>, es: seq<Entry>, more: seq<Entry>, k: nat)
    requires bs > 0 && k <= |ns| && k <= |es| && es <= more
    ensures Frontier(bs, start, ns, es, k) == Frontier(bs, start, ns, more, k)
  {
    hide Align;
    if k > 0 {
      FrontierOfPrefix(bs, start, ns, es, more, k - 1);
    }
  }

  /** The cursor after `k` children. */
  ghost predicate Reached(bs: nat, base: nat, start: nat, ns: seq<Node>, c: Cursor, k: nat)
    requires bs > 0
  {
    && k == |c.done| <= |ns| && c.rpos == Frontier(bs, start, ns, c.done, k)
    && (forall j :: 0 <= j < k ==> Placed(bs, base, start, ns, c.done, j))
    && (forall j :: 0 <= j < k ==> c.done[j].last <= c.last)
    && (c.last == start || exists j :: 0 <= j < k && c.last == c.done[j].last)
    && start <= c.last
  }

  lemma OnePlaced(bs: nat, base: nat, start: nat, ns: seq<Node>, c: Cursor, k: nat)
    requires bs > 0 && k < |ns| && Reached(bs, base, start, ns, c, k)
    ensures Reached(bs, base, start, ns, PlaceOne(bs, base, ns[k], c), k + 1)
  {
    var c' := PlaceOne(bs, base, ns[k], c);
    OneMore(bs, base, ns[k], c);
    FrontierOfPrefix(bs, start, ns, c.done, c'.done, k);
    hide Align, Alloc, PlaceOne, Room;
    assert Placed(bs, base, start, ns, c'.done, k);
    assert c'.rpos == Frontier(bs, start, ns, c'.done, k + 1);
    hide Placed, Frontier;
    forall j | 0 <= j < k
      ensures Placed(bs, base, start, ns, c'.done, j)
    {
      assert Placed(bs, base, start, ns, c.done, j);
      StillPlaced(bs, base, start, ns, c.done, c'.done, j);
    }
    hide Reached;
    MoreReached(bs, base, start, ns, c, c', k);
  }

  lemma MoreReached(
    bs: nat, base: nat, start: nat, ns: seq<Node>, c: Cursor, c': Cursor, k: nat)
    requires bs > 0 && k < |ns| && Reached(bs, base, start, ns, c, k)
    requires |c'.done| == k + 1 && c'.done == c.done + [c'.done[k]] && c'.last == Max(c.last, c'.done[k].last)
    requires c'.rpos == Frontier(bs, start, ns, c'.done, k + 1)
    requires forall j :: 0 <= j <= k ==> Placed(bs, base, start, ns, c'.done, j)
    ensures Reached(bs, base, start, ns, c', k + 1)
  {
    hide Placed, Frontier;
    if c'.last == c'.done[k].last {
    } else if c.last != start {
      var j :| 0 <= j < k && c.last == c.done[j].last;
      assert c'.done[j].last == c'.last;
    }
  }

  lemma StillPlaced(
    bs: nat, base: nat, start: nat, ns: seq<Node>, es: seq<Entry>, more: seq<Entry>, k: nat)
    requires bs > 0 && k < |ns| && k < |es| && es <= more && Placed(bs, base, start, ns, es, k)
    ensures Placed(bs, base, start, ns, more, k)
  {
    FrontierOfPrefix(bs, start, ns, es, more, k);
    hide Align, Alloc;
  }

  /** One entry is appended, and the cursor moves behind it unless its position was demanded. */
  lemma OneMore(bs: nat, base: nat, n: Node, c: Cursor)
    requires bs > 0
    ensures
      var c' := PlaceOne(bs, base, n, c);
      var e := c'.done[|c.done|];
      && c'.done == c.done + [e] && e.name == n.name && e.pos == n.pos
      && e.first == (if n.pos.UserAt? then n.pos.start else c.rpos)
      && e.last == (e.first + Room(n, e) - 1) % U64
      && c'.rpos == (if n.pos.UserAt? then c.rpos else Align(bs, e.first + Room(n, e)))
      && c'.last == Max(c.last, e.last)
      && (n.File? ==> e.FileAt? && e.flags == n.flags && e.data == n.data)
      && (n.Dir? ==> e.DirAt? && e.child == c.rpos && e.sub == Alloc(bs, base + c.rpos, 0, n.children))
  {
    hide Align, Alloc;
  }

  lemma {:induction false} AllPlaced(bs: nat, base: nat, start: nat, ns: seq<Node>, c: Cursor, k: nat)
    requires bs > 0 && k <= |ns| && Reached(bs, base, start, ns, c, k)
    ensures Reached(bs, base, start, ns, Place(bs, base, ns[k..], c), |ns|)
    decreases |ns| - k
  {
    hide Reached, PlaceOne;
    if k < |ns| {
      OnePlaced(bs, base, start, ns, c, k);
      assert ns[k..][0] == ns[k] && ns[k..][1..] == ns[k + 1..];
      AllPlaced(bs, base, start, ns, PlaceOne(bs, base, ns[k], c), k + 1);
    } else {
      assert ns[k..] == [];
    }
  }

  /**
   * Every entry of an allocated directory stands where it was demanded, or at the block boundary behind the last
   * entry before it that was not demanded anywhere, or behind the table; a directory's contents lie relative to that
   * boundary. The directory's last address is that of the entry reaching furthest, or where entries begin.
   */
  lemma EveryPlace(bs: nat, base: nat, ustart: nat, ns: seq<Node>)
    requires bs > 0
    ensures
      var l, start := Alloc(bs, base, ustart, ns), ustart + Align(bs, 64 * (|ns| + 1));
      && |l.entries| == |ns| && l.base == base && l.ustart == ustart
      && (forall k :: 0 <= k < |ns| ==> Placed(bs, base, start, ns, l.entries, k))
      && (forall k :: 0 <= k < |ns| ==> l.entries[k].last <= l.last)
      && start <= l.last
      && (l.last == start || exists k :: 0 <= k < |ns| && l.last == l.entries[k].last)
  {
    hide Align, PlaceOne, Placed;
    var start := ustart + Align(bs, 64 * (|ns| + 1));
    var c := Cursor(start, start, []);
    assert ns[0..] == ns;
    AllPlaced(bs, base, start, ns, c, 0);
  }

  // ---------------------------------------------------------------- demanded positions are transparent

  /** The same nodes wherever no position is demanded; anything at all where one is. */
  ghost predicate SameSequential(ns: seq<Node>, ms: seq<Node>) {
    |ns| == |ms| && forall k :: 0 <= k < |ns| ==> ns[k] == ms[k] || (ns[k].pos.UserAt? && ms[k].pos.UserAt?)
  }

  lemma {:induction false} SameFrontier(
    bs: nat, base: nat, start: nat, ns: seq<Node>, ms: seq<Node>, es: seq<Entry>, fs: seq<Entry>, k: nat)
    requires bs > 0 && |es| == |fs| == |ns| == |ms| && k <= |ns| && SameSequential(ns, ms)
    requires forall j :: 0 <= j < |ns| ==> Placed(bs, base, start, ns, es, j) && Placed(bs, base, start, ms, fs, j)
    ensures Frontier(bs, start, ns, es, k) == Frontier(bs, start, ms, fs, k)
    ensures k < |ns| && ns[k] == ms[k] ==> es[k] == fs[k]
  {
    hide Align, Alloc, SameSequential;
    if k > 0 {
      SameFrontier(bs, base, start, ns, ms, es, fs, k - 1);
      SameOrDemanded(ns, ms, k - 1);
    }
    if k < |ns| {
      assert Placed(bs, base, start, ns, es, k) && Placed(bs, base, start, ms, fs, k);
    }
  }

  lemma SameOrDemanded(ns: seq<Node>, ms: seq<Node>, k: nat)
    requires SameSequential(ns, ms) && k < |ns|
    ensures ns[k] == ms[k] || (ns[k].pos.UserAt? && ms[k].pos.UserAt?)
  {
  }

  /**
   * Entries without a demanded position, their contents included, come out the same whatever stands at demanded
   * positions between them: its kind, size, position and contents may all differ.
   */
  lemma {:induction false} DemandedTransparent(bs: nat, base: nat, ustart: nat, ns: seq<Node>, ms: seq<Node>, k: nat)
    requires bs > 0 && SameSequential(ns, ms) && k < |ns| && ns[k] == ms[k]
    ensures Alloc(bs, base, ustart, ns).entries[k] == Alloc(bs, base, ustart, ms).entries[k]
  {
    hide Align, Alloc, Placed, Frontier;
    assert |ns| == |ms|;
    var start := ustart + Align(bs, 64 * (|ns| + 1));
    var es, fs := Alloc(bs, base, ustart, ns).entries, Alloc(bs, base, ustart, ms).entries;
    forall j | 0 <= j < |ns|
      ensures Placed(bs, base, start, ns, es, j) && Placed(bs, base, start, ms, fs, j)
    {
      PlacedAt(bs, base, ustart, ns, j);
      PlacedAt(bs, base, ustart, ms, j);
    }
    SameFrontier(bs, base, start, ns, ms, es, fs, k);
  }

  /** A file at 0x1000 in a block size of 64 leaves the next one directly behind the table, at 192. */
  lemma DemandedInstance(a: seq<Byte>, b: seq<Byte>, data: seq<Byte>)
    ensures
      var l := Alloc(64, 0, 0, [File(a, 0, data, 100, UserAt(0x1000)), File(b, 0, data, 100, Sequential)]);
      l.entries[0].first == 0x1000 && l.entries[1].first == 192 && l.last == 0x1063
  {
    var ns := [File(a, 0, data, 100, UserAt(0x1000)), File(b, 0, data, 100, Sequential)];
    AlignInstance();
    EveryPlace(64, 0, 0, ns);
    hide Alloc, Align, Placed;
    PlacedAt(64, 0, 0, ns, 0);
    PlacedAt(64, 0, 0, ns, 1);
    TwoPlaced(ns, Alloc(64, 0, 0, ns).entries);
  }

  lemma PlacedAt(bs: nat, base: nat, ustart: nat, ns: seq<Node>, k: nat)
    requires bs > 0 && k < |ns|
    ensures Placed(bs, base, ustart + Align(bs, 64 * (|ns| + 1)), ns, Alloc(bs, base, ustart, ns).entries, k)
  {
    EveryPlace(bs, base, ustart, ns);
  }

  lemma TwoPlaced(ns: seq<Node>, es: seq<Entry>)
    requires |ns| == |es| == 2 && Placed(64, 0, 192, ns, es, 0) && Placed(64, 0, 192, ns, es, 1)
    requires ns[0].File? && ns[0].size == 100 && ns[0].pos == UserAt(0x1000)
    requires ns[1].File? && ns[1].size == 100 && ns[1].pos == Sequential
    ensures es[0].first == 0x1000 && es[0].last == 0x1063 && es[1].first == 192 && es[1].last == 291
  {
    hide Align;
    assert Frontier(64, 192, ns, es, 1) == Frontier(64, 192, ns, es, 0);
  }

  lemma AlignInstance()
    ensures Align(64, 192) == 192
  {
    assert 255 % UINT == 255;
  }
}
