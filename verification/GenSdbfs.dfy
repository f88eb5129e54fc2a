/**
 * Placing a directory tree in storage: `alloc_storage` of the image builder, level by level, each
 * directory after its own table.
 */
module GenSdbfs {
  import opened Bytes
  import opened Sdb

  datatype Position = Sequential | UserAt(start: nat)

  /**
   * What the builder knows of a directory entry once the input directory and its configuration are
   * read: `size` is the space to reserve, `pos` a position demanded by the user.
   */
  datatype Node =
    | File(name: seq<Byte>, flags: Word, data: seq<Byte>, size: nat, pos: Position)
    | Dir(name: seq<Byte>, size: nat, pos: Position, children: seq<Node>)

  /** An entry with its addresses, relative to the directory's base. */
  datatype Entry =
    | FileAt(name: seq<Byte>, flags: Word, first: nat, last: nat, pos: Position, data: seq<Byte>)
    | DirAt(name: seq<Byte>, first: nat, last: nat, pos: Position, child: nat, sub: Layout)

  /** A placed directory: absolute base, position of its table, last address in use, and its entries. */
  datatype Layout = Layout(base: nat, ustart: nat, last: nat, entries: seq<Entry>)

  /** `SDB_ALIGN`: the mask is a 32-bit complement, so higher address bits are lost; `bs` is a power of two. */
  function Align(bs: nat, x: nat): nat
    requires bs > 0
  {
    var y := (x + bs - 1) % UINT;
    y - y % bs
  }

  /** `rpos`, `last` and the entries placed so far. */
  datatype Cursor = Cursor(rpos: nat, last: nat, done: seq<Entry>)

  function Max(a: nat, b: nat): nat {
    if a > b then a else b
  }

  /** Last address of `size` bytes at `at`, as unsigned 64-bit arithmetic has it. */
  function LastOf(at: nat, size: nat): nat {
    (at + size - 1) % U64
  }

  function Alloc(bs: nat, base: nat, ustart: nat, children: seq<Node>): (l: Layout)
    requires bs > 0
    ensures |l.entries| == |children| && l.base == base && l.ustart == ustart
    decreases children, 1
  {
    var rpos := ustart + Align(bs, RECORD * (|children| + 1));
    var c := Place(bs, base, children, Cursor(rpos, rpos, []));
    Layout(base, ustart, c.last, c.done)
  }

  function Place(bs: nat, base: nat, rest: seq<Node>, c: Cursor): (c': Cursor)
    requires bs > 0
    ensures |c'.done| == |c.done| + |rest|
    decreases rest, 0
  {
    if rest == [] then c
    else Place(bs, base, rest[1..], PlaceOne(bs, base, rest[0], c))
  }

  /** A demanded position leaves `rpos` alone; everything else follows the previous entry. */
  function PlaceOne(bs: nat, base: nat, n: Node, c: Cursor): (c': Cursor)
    requires bs > 0
    ensures |c'.done| == |c.done| + 1
    decreases n, 2
  {
    match n
    case File(name, flags, data, size, pos) =>
      var first := if pos.UserAt? then pos.start else c.rpos;
      Cursor(if pos.UserAt? then c.rpos else Align(bs, c.rpos + size), Max(c.last, LastOf(first, size)),
             c.done + [FileAt(name, flags, first, LastOf(first, size), pos, data)])
    case Dir(name, size, pos, children) =>
      var sub := Alloc(bs, base + c.rpos, 0, children);
      var room := Max(sub.last, size);
      var first := if pos.UserAt? then pos.start else c.rpos;
      Cursor(if pos.UserAt? then c.rpos else Align(bs, c.rpos + room), Max(c.last, LastOf(first, room)),
             c.done + [DirAt(name, first, LastOf(first, room), pos, c.rpos, sub)])
  }

  /** `alloc_storage` on a directory whose base and table position are set. */
  method AllocStorage(bs: nat, base: nat, ustart: nat, children: seq<Node>) returns (l: Layout)
    requires bs > 0
    ensures l == Alloc(bs, base, ustart, children)
    decreases children
  {
    hide PlaceOne, Align;
    var rpos: nat := ustart + Align(bs, RECORD * (|children| + 1));
    var last: nat, done: seq<Entry> := rpos, [];
    var i := 0;
    while i < |children|
      invariant 0 <= i <= |children|
      invariant Alloc(bs, base, ustart, children)
             == var c := Place(bs, base, children[i..], Cursor(rpos, last, done)); Layout(base, ustart, c.last, c.done)
    {
      assert children[i..][0] == children[i] && children[i..][1..] == children[i + 1..];
      var entry;
      entry, rpos, last := PlaceNode(bs, base, children[i], rpos, last, done);
      done := done + [entry];
      i := i + 1;
    }
    l := Layout(base, ustart, last, done);
  }

  /** One iteration of the allocation loop; a directory allocates itself first. */
  method PlaceNode(bs: nat, base: nat, f: Node, rpos: nat, last: nat, ghost done: seq<Entry>)
    returns (entry: Entry, rpos': nat, last': nat)
    requires bs > 0
    ensures PlaceOne(bs, base, f, Cursor(rpos, last, done)) == Cursor(rpos', last', done + [entry])
    decreases f
  {
    hide Alloc, Align;
    var size, sub := f.size, Layout(0, 0, 0, []);
    if f.Dir? {
      sub := AllocStorage(bs, base + rpos, 0, f.children);
      if sub.last > size { size := sub.last; }
    }
    var first := if f.pos.UserAt? then f.pos.start else rpos;
    var l := LastOf(first, size);
    entry := if f.Dir? then DirAt(f.name, first, l, f.pos, rpos, sub)
             else FileAt(f.name, f.flags, first, l, f.pos, f.data);
    rpos', last' := rpos, last;
    if l > last { last' := l; }
    if f.pos.Sequential? { rpos' := Align(bs, rpos + size); }
  }
}
