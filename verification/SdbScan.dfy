/**
 * The library's scanner: an iterative walk over SDB tables with four-entry stacks, proved to yield
 * the recursive walk of module Sdb, and files opened by name and read in pieces.
 */
module SdbScan {
  import opened Bytes
  import opened Sdb

  /** The result of `sdbfs_scan`: a record, or `NULL`. */
  datatype Scanned = Null | Found(rec: Record)

  /** The stacks of `struct sdbfs` as values; `base`, `cursor` and `nleft` have one entry per level. */
  datatype Stacks = Stacks(base: seq<nat>, cursor: seq<nat>, nleft: seq<int>, depth: nat, current: Record)
  {
    ghost predicate Shape() {
      |base| == |cursor| == |nleft| == DEPTH && depth < DEPTH
    }

    /** No level on the way up has a negative count. */
    ghost predicate Counted() {
      Shape() && forall d :: 0 <= d <= depth ==> nleft[d] >= 0
    }

    /** Some level has a count that no longer reaches zero. */
    ghost predicate Stuck() {
      Shape() && exists d :: 0 <= d <= depth && nleft[d] < 0
    }
  }

  /** What the levels from `d` down to 0 still have to offer. */
  ghost function Above(rd: Reader, s: Stacks, d: nat): (w: Walk)
    requires s.Counted() && d <= s.depth
    ensures w.stuck ==> w.items != []
  {
    Then(Entries(rd, s.cursor[d], s.base[d], s.nleft[d], d), if d == 0 then NOTHING else Above(rd, s, d - 1))
  }

  /** What is still to be visited: behind the current record, then on all levels above. */
  ghost function Rest(rd: Reader, s: Stacks): (w: Walk)
    requires s.Counted()
    ensures w.stuck ==> w.items != []
  {
    Then(Inside(rd, s.current, s.base[s.depth], s.depth), Above(rd, s, s.depth))
  }

  /** `Above` looks only at the levels up to `d`. */
  lemma {:induction false} AboveAgrees(rd: Reader, s: Stacks, t: Stacks, d: nat)
    requires s.Counted() && t.Counted() && d <= s.depth && d <= t.depth
    requires forall k :: 0 <= k <= d ==>
               s.cursor[k] == t.cursor[k] && s.base[k] == t.base[k] && s.nleft[k] == t.nleft[k]
    ensures Above(rd, s, d) == Above(rd, t, d)
  {
    hide Entries, Then;
    if d > 0 {
      AboveAgrees(rd, s, t, d - 1);
    }
  }

  /** An exhausted level has nothing to offer. */
  lemma AboveExhausted(rd: Reader, s: Stacks, d: nat)
    requires s.Counted() && d <= s.depth && s.nleft[d] == 0
    ensures Above(rd, s, d) == if d == 0 then NOTHING else Above(rd, s, d - 1)
  {
    ThenNothing(if d == 0 then NOTHING else Above(rd, s, d - 1));
  }

  /** `t` is `s` after leaving exhausted levels. */
  ghost predicate Climbed(rd: Reader, s: Stacks, t: Stacks) {
    && t == s.(depth := t.depth) && t.depth <= s.depth
    && (s.Counted() ==> t.Counted() && Above(rd, t, t.depth) == Above(rd, s, s.depth))
    && (s.Stuck() ==> t.Stuck())
  }

  lemma NotYetClimbed(rd: Reader, s: Stacks)
    ensures Climbed(rd, s, s)
  {
  }

  lemma ClimbOne(rd: Reader, s: Stacks, t: Stacks)
    requires Climbed(rd, s, t) && t.Shape() && t.depth > 0 && t.nleft[t.depth] == 0
    ensures Climbed(rd, s, t.(depth := t.depth - 1))
  {
    hide Entries, Then;
    if s.Counted() {
      AboveExhausted(rd, t, t.depth);
      AboveAgrees(rd, t, t.(depth := t.depth - 1), t.depth - 1);
    }
  }

  /** At the top with nothing left there was nothing to visit; a negative count is never left behind. */
  lemma ClimbedOut(rd: Reader, s: Stacks, t: Stacks)
    requires Climbed(rd, s, t) && t.Shape() && t.depth == 0 && t.nleft[0] == 0
    ensures !s.Stuck() && (s.Counted() ==> Above(rd, s, s.depth) == NOTHING)
    ensures s.Counted() ==> t.Counted()
  {
    if s.Counted() { AboveExhausted(rd, t, 0); }
  }

  lemma ClimbedTo(rd: Reader, s: Stacks, t: Stacks)
    requires Climbed(rd, s, t)
    ensures t.depth <= s.depth
    ensures s.Counted() ==> t.Counted() && Above(rd, t, t.depth) == Above(rd, s, s.depth)
    ensures s.Stuck() ==> t.Stuck()
  {
  }

  class Sdbfs {
    const mem: Memory
    const convert: bool
    const entrypoint: nat
    const currentRecord: array<Byte>
    const base: array<nat>
    const cursor: array<nat>       // `this` in the source
    const nleft: array<int>
    var depth: nat
    var current: Record            // what `currentp` points to
    var fOffset: nat
    var fLen: nat
    var readOffset: nat
    var isOpen: bool               // `currentp` is not null: set by every scan, cleared by closing

    /** A mounted image; the structure is expected to be zeroed by the caller. */
    constructor (mem: Memory, convert: bool, entrypoint: nat)
      requires entrypoint < U64
      ensures Valid() && !isOpen && this.mem == mem && this.convert == convert && this.entrypoint == entrypoint
      ensures fresh(currentRecord) && fresh(base) && fresh(cursor) && fresh(nleft)
    {
      this.mem, this.convert, this.entrypoint := mem, convert, entrypoint;
      currentRecord := new Byte[RECORD];
      base, cursor, nleft := new nat[DEPTH](_ => 0), new nat[DEPTH](_ => 0), new int[DEPTH](_ => 0);
      depth, fOffset, fLen, readOffset, isOpen := 0, 0, 0, 0, false;
      current := Record(0, 0, 0, 0, 0, [], 0);
    }

    ghost predicate Valid()
      reads this, base, cursor, nleft
    {
      && currentRecord.Length == RECORD && base.Length == cursor.Length == nleft.Length == DEPTH
      && base != cursor && depth < DEPTH && entrypoint < U64
    }

    ghost function View(): Stacks
      reads this, base, cursor, nleft
    {
      Stacks(base[..], cursor[..], nleft[..], depth, current)
    }

    ghost function Rd(): Reader {
      ReaderOf(mem, convert)
    }

    /** `sdbfs_readentry`: the record at `off`, with its words swapped in place if so flagged. */
    method ReadEntry(off: nat) returns (r: Record)
      requires currentRecord.Length == RECORD
      modifies currentRecord
      ensures r == Rd()(off)
    {
      if !convert { return Decode(Raw(mem, off)); }
      forall k | 0 <= k < RECORD { currentRecord[k] := mem(off + k); }
      assert currentRecord[..] == Raw(mem, off);
      Convert();
      r := Decode(currentRecord[..]);
    }

    /** Exchanges the bytes of every 32-bit word of the record. */
    method Convert()
      requires currentRecord.Length == RECORD
      modifies currentRecord
      ensures currentRecord[..] == SwapWords(old(currentRecord[..]))
    {
      SwapIndexWithin();
      hide SwapIndex;
      ghost var raw := currentRecord[..];
      var i := 0;
      while i < RECORD / 4
        invariant 0 <= i <= RECORD / 4
        invariant forall k :: 0 <= k < RECORD ==>
                    0 <= SwapIndex(k) < RECORD && currentRecord[k] == if k < 4 * i then raw[SwapIndex(k)] else raw[k]
      {
        ConvertWord(i);
        i := i + 1;
      }
      assert forall k :: 0 <= k < RECORD ==> currentRecord[..][k] == SwapWords(raw)[k];
    }

    method ConvertWord(i: nat)
      requires currentRecord.Length == RECORD && 4 * i < RECORD
      modifies currentRecord
      ensures forall k :: 4 * i <= k < 4 * i + 4 ==> 4 * i <= SwapIndex(k) < 4 * i + 4
      ensures forall k :: 0 <= k < RECORD ==>
                0 <= SwapIndex(k) < RECORD
                && currentRecord[k]
                   == old(if 4 * i <= k < 4 * i + 4 then currentRecord[SwapIndex(k)] else currentRecord[k])
    {
      var p := 4 * i;
      SwapIndexInWord(i, 0);
      SwapIndexInWord(i, 1);
      SwapIndexInWord(i, 2);
      SwapIndexInWord(i, 3);
      SwapIndexWithin();
      hide SwapIndex;
      currentRecord[p], currentRecord[p + 1], currentRecord[p + 2], currentRecord[p + 3] :=
        currentRecord[p + 3], currentRecord[p + 2], currentRecord[p + 1], currentRecord[p];
    }

    /** `scan_newdir`: enters level `d` if a valid interconnect stands at its cursor. */
    method NewDir(d: nat) returns (found: bool)
      requires Valid() && d < DEPTH
      modifies this`current, this`isOpen, this`depth, currentRecord, cursor, nleft
      ensures Valid() && isOpen && current == Rd()(old(cursor[d])) && found == IsTable(current)
      ensures !found ==> cursor[..] == old(cursor[..]) && nleft[..] == old(nleft[..]) && depth == old(depth)
      ensures found ==>
        && depth == d && nleft[..] == old(nleft[..])[d := current.records as int - 1]
        && cursor[..] == old(cursor[..])[d := (old(cursor[d]) + RECORD) % U64]
    {
      current := ReadEntry(cursor[d]);
      isOpen := true;
      if current.kind != INTERCONNECT { return false; }
      if current.magic != MAGIC { return false; }
      nleft[d] := current.records as int - 1;
      cursor[d] := (cursor[d] + RECORD) % U64;
      depth := d;
      found := true;
    }

    /** A scan that had the walk `w` before it returned `res` and leaves the rest of `w`. */
    ghost predicate Delivers(w: Walk, res: Scanned)
      requires Valid()
      reads this, base, cursor, nleft
    {
      if w.items == [] then res == Null
      else
        && res == Found(w.items[0].rec) && current == w.items[0].rec
        && depth == w.items[0].depth && base[depth] == w.items[0].base && fOffset == w.items[0].Offset()
        && if w.stuck && |w.items| == 1 then View().Stuck()
           else View().Counted() && Rest(Rd(), View()) == Walk(w.items[1..], w.stuck)
    }

    /** Climbs out of exhausted levels; false when there is none left. */
    method Climb() returns (more: bool)
      requires Valid() && (View().Counted() || View().Stuck())
      modifies this`depth
      ensures Valid() && depth <= old(depth) && View() == old(View()).(depth := depth)
      ensures more ==> nleft[depth] != 0
      ensures old(View().Counted()) ==>
        View().Counted()
        && old(Above(Rd(), View(), depth)) == if more then Above(Rd(), View(), depth) else NOTHING
      ensures old(View().Stuck()) ==> more && View().Stuck()
    {
      ghost var s := View();
      hide Climbed, Above, ReaderOf;
      NotYetClimbed(Rd(), s);
      var d := depth;
      while nleft[d] == 0
        invariant Valid() && depth == d && View() == s.(depth := d) && Climbed(Rd(), s, View())
        decreases d
      {
        if d == 0 {
          ClimbedOut(Rd(), s, View());
          return false;
        }
        ClimbOne(Rd(), s, View());
        d := d - 1;
        depth := d;
      }
      ClimbedTo(Rd(), s, View());
      more := true;
    }

    /** The second half of `sdbfs_scan`: climb as far as needed, then take the next entry. */
    method NextEntry() returns (res: Scanned)
      requires Valid() && isOpen && (View().Counted() || View().Stuck())
      modifies this`current, this`isOpen, this`depth, this`fOffset, currentRecord, cursor, nleft
      ensures Valid() && isOpen
      ensures old(View().Counted()) ==> Delivers(old(Above(Rd(), View(), depth)), res)
      ensures old(View().Stuck()) ==> res.Found? && View().Stuck()
    {
      hide Entries, Inside, Then, ReaderOf, Above, Rest;
      var more := Climb();
      if !more { return Null; }
      ghost var t := View();
      current := ReadEntry(cursor[depth]);
      isOpen := true;
      cursor[depth] := (cursor[depth] + RECORD) % U64;
      nleft[depth] := nleft[depth] - 1;
      fOffset := (base[depth] + current.first) % U64;
      res := Found(current);
      if t.Counted() {
        EntryTaken(Rd(), t, View());
        ThenOne(Item(current, base[depth], depth), Rest(Rd(), View()));
      } else {
        assert t.Stuck();
        StuckStays(t, View());
      }
    }

    /** `sdbfs_scan`. A fresh scan starts at the entry point; otherwise the previous one goes on. */
    method Scan(newScan: bool) returns (res: Scanned)
      requires Valid() && (newScan || (isOpen && (View().Counted() || View().Stuck())))
      modifies this`current, this`isOpen, this`depth, this`fOffset, currentRecord, base, cursor, nleft
      ensures Valid() && isOpen
      ensures newScan ==> Delivers(Table(Rd(), entrypoint, 0, 0), res)
      ensures newScan && !IsTable(Rd()(entrypoint)) ==> View() == old(Rewound(View()))
      ensures !newScan && old(View().Counted()) ==> Delivers(old(Rest(Rd(), View())), res)
      ensures !newScan && old(View().Stuck()) ==> res.Found? && View().Stuck()
    {
      if newScan {
        res := FreshScan();
      } else {
        res := NextScan();
      }
    }

    /** The stacks at the start of a scan that finds no table. */
    ghost function Rewound(s: Stacks): Stacks
      requires s.Shape()
    {
      Stacks(s.base[0 := 0], s.cursor[0 := entrypoint], s.nleft, 0, Rd()(entrypoint))
    }

    method FreshScan() returns (res: Scanned)
      requires Valid()
      modifies this`current, this`isOpen, this`depth, this`fOffset, currentRecord, base, cursor, nleft
      ensures Valid() && isOpen && Delivers(Table(Rd(), entrypoint, 0, 0), res)
      ensures !IsTable(Rd()(entrypoint)) ==> View() == old(Rewound(View()))
    {
      hide Entries, Table, Then, ReaderOf, Above, Rest;
      base[0], cursor[0], depth := 0, entrypoint, 0;
      var found := NewDir(0);
      if found {
        fOffset := (base[depth] + current.first) % U64;
        EnterTable(Rd(), View(), View(), entrypoint, 0, 0);
        ThenNothing(Table(Rd(), entrypoint, 0, 0));
        return Found(current);
      }
      TableMissing(Rd(), entrypoint, 0, 0);
      res := Null;
    }

    /** Goes into the bridge returned last, if any, or on to the next entry. */
    method NextScan() returns (res: Scanned)
      requires Valid() && isOpen && (View().Counted() || View().Stuck())
      modifies this`current, this`isOpen, this`depth, this`fOffset, currentRecord, base, cursor, nleft
      ensures Valid() && isOpen
      ensures old(View().Counted()) ==> Delivers(old(Rest(Rd(), View())), res)
      ensures old(View().Stuck()) ==> res.Found? && View().Stuck()
    {
      hide Entries, Table, Then, ReaderOf, Above, Rest;
      ghost var s, rd := View(), Rd();
      if current.kind == BRIDGE && depth + 1 < DEPTH {
        var d := depth + 1;
        cursor[d] := (base[d - 1] + current.child) % U64;
        base[d] := (base[d - 1] + current.first) % U64;
        ghost var off, start := cursor[d], base[d];
        if s.Counted() { RestIs(rd, s, off, start, d); }
        var found := NewDir(d);
        if found {
          fOffset := (base[depth] + current.first) % U64;
          Entered(s, off, start, d);
          return Found(current);
        }
        TableMissing(rd, off, start, d);
      } else if s.Counted() {
        RestIs(rd, s, 0, 0, depth);
      }
      if s.Counted() {
        AboveAgrees(rd, s, View(), depth);
      } else {
        StuckBelow(s, View());
      }
      res := NextEntry();
    }

    /** The table behind a bridge was just entered. */
    lemma Entered(s: Stacks, off: nat, start: nat, d: nat)
      requires Valid() && (s.Counted() || s.Stuck()) && depth == d && s.depth == d - 1
      requires current == Rd()(off) && IsTable(current) && fOffset == (start + current.first) % U64
      requires base[d] == start && cursor[d] == (off + RECORD) % U64 && nleft[d] == current.records as int - 1
      requires forall k :: 0 <= k < d ==> s.cursor[k] == cursor[k] && s.base[k] == base[k] && s.nleft[k] == nleft[k]
      ensures s.Counted() ==> Delivers(Then(Table(Rd(), off, start, d), Above(Rd(), s, d - 1)), Found(current))
      ensures s.Stuck() ==> View().Stuck()
    {
      hide Entries, Table, Then, ReaderOf, Above, Rest;
      if s.Counted() {
        EnterTable(Rd(), s, View(), off, start, d);
      } else {
        StuckBelow(s, View());
      }
    }

    /** Up to `n` calls of `sdbfs_scan`, the first one fresh; stops at `NULL`. */
    method ScanTimes(n: nat) returns (out: seq<Seen>, ended: bool)
      requires Valid()
      modifies this`current, this`isOpen, this`depth, this`fOffset, currentRecord, base, cursor, nleft
      ensures Valid()
      ensures
        var w := Table(Rd(), entrypoint, 0, 0);
        && (ended <==> TableCounted(Rd(), entrypoint, 0, 0) && |w.items| < n)
        && (!ended ==> |out| == n)
        && (ended ==> |out| == |w.items|)
        && SeenInOrder(out, w.items)
    {
      EndsExactly(Rd(), entrypoint, 0, 0);
      hide *;
      ghost var w := Table(Rd(), entrypoint, 0, 0);
      out := [];
      NoneSeen(w.items);
      while |out| < n
        invariant Valid() && |out| <= n && (w.stuck || |out| <= |w.items|)
        invariant SeenInOrder(out, w.items)
        invariant out != [] ==> Follows(w, |out|)
      {
        var res := ScanOnce(w, out);
        if res.Null? { return out, true; }
        out := out + [Seen(res.rec, fOffset, depth)];
      }
      ended := false;
    }

    /** The call after `out` was seen; null exactly when everything was. */
    method ScanOnce(ghost w: Walk, out: seq<Seen>) returns (res: Scanned)
      requires Valid() && w == Table(Rd(), entrypoint, 0, 0) && SeenInOrder(out, w.items)
      requires (out != [] ==> Follows(w, |out|)) && (w.stuck || |out| <= |w.items|)
      modifies this`current, this`isOpen, this`depth, this`fOffset, currentRecord, base, cursor, nleft
      ensures Valid() && (res == Null <==> !w.stuck && |out| == |w.items|)
      ensures res.Found? ==>
                && SeenInOrder(out + [Seen(res.rec, fOffset, depth)], w.items)
                && Follows(w, |out| + 1)
    {
      hide *;
      res := Advance(w, |out|, out == []);
      if |out| < |w.items| { JustSeen(w.items[|out|], res); }
      if res.Found? { OneMoreSeen(out, w.items, Seen(res.rec, fOffset, depth)); }
    }

    lemma JustSeen(i: Item, res: Scanned)
      requires Delivered(i, res)
      ensures res.Found? && Seen(res.rec, fOffset, depth) == SeenOf(i)
    {
    }

    /** After `k` records of walk `w` the scanner is where the rest of `w` begins, or stuck behind its end. */
    ghost predicate Follows(w: Walk, k: nat)
      reads this, base, cursor, nleft
    {
      && isOpen
      && if w.stuck && k >= |w.items| then View().Stuck()
      else k <= |w.items| && View().Counted() && Rest(Rd(), View()) == Walk(w.items[k..], w.stuck)
    }

    /** What the search of `sdbfs_open_name` goes through: everything behind the first call's record. */
    ghost function Searched(): Walk
      requires Valid() && (IsTable(Rd()(entrypoint)) || nleft[0] >= 0)
      reads this, base, cursor, nleft
    {
      if IsTable(Rd()(entrypoint)) then
        var w := Table(Rd(), entrypoint, 0, 0);
        RootFirst(Rd(), entrypoint);
        Walk(w.items[1..], w.stuck)
      else Rest(Rd(), Rewound(View()))
    }

    /**
     * `sdbfs_open_name`: 0 and the first match is open, or -2 (`-ENOENT`) if there is none. It comes back
     * from an endless walk only if something on it matches.
     */
    method OpenName(name: seq<Byte>) returns (ret: int)
      requires Valid() && (IsTable(Rd()(entrypoint)) || nleft[0] >= 0)
      requires |name| <= 19 && Searched().stuck ==> exists k: nat :: FirstMatch(Searched().items, name, k)
      modifies this, currentRecord, base, cursor, nleft
      ensures Valid()
      ensures
        var items := old(Searched()).items;
        if ret == 0 then exists k: nat :: FirstMatch(items, name, k) && Opened(items[k])
        else ret == -2 && (|name| > 19 || (isOpen && forall k :: 0 <= k < |items| ==> !Matches(name, items[k].rec)))
    {
      hide ReaderOf, Rest, Matches, Table, Searched, Follows;
      ghost var w := Searched();
      if |name| > 19 { return -2; }
      var res := FirstScan();
      ghost var k := 0;
      res := Advance(w, k, false);
      while res.Found?
        invariant Valid() && isOpen && k <= |w.items|
        invariant res.Found? <==> k < |w.items|
        invariant res.Found? ==> Delivered(w.items[k], res) && Follows(w, k + 1)
        invariant forall j :: 0 <= j < k ==> !Matches(name, w.items[j].rec)
        decreases |w.items| - k
      {
        if Matches(name, res.rec) {
          fOffset := (base[depth] + current.first) % U64;
          fLen := (current.last + 1 - current.first) % U64;
          readOffset := 0;
          assert FirstMatch(w.items, name, k);
          return 0;
        }
        k := k + 1;
        res := Advance(w, k, false);
      }
      ret := -2;
    }

    /** The first call of a search, whose record is ignored. */
    method FirstScan() returns (res: Scanned)
      requires Valid() && (IsTable(Rd()(entrypoint)) || nleft[0] >= 0)
      modifies this`current, this`isOpen, this`depth, this`fOffset, currentRecord, base, cursor, nleft
      ensures Valid() && Follows(old(Searched()), 0)
    {
      hide ReaderOf, Rest, Table;
      ghost var w := Searched();
      assert w.items[0..] == w.items;
      RootFirst(Rd(), entrypoint);
      res := Scan(true);
    }

    /** The call after `k` records of walk `w`; the very first call may be a fresh one. */
    method Advance(ghost w: Walk, ghost k: nat, newScan: bool) returns (res: Scanned)
      requires Valid() && if newScan then k == 0 && w == Table(Rd(), entrypoint, 0, 0) else Follows(w, k)
      modifies this`current, this`isOpen, this`depth, this`fOffset, currentRecord, base, cursor, nleft
      ensures Valid() && isOpen
      ensures k < |w.items| ==> Delivered(w.items[k], res)
      ensures k >= |w.items| ==> if w.stuck then res.Found? else res == Null
      ensures res.Found? ==> Follows(w, k + 1)
    {
      hide ReaderOf, Rest, Table;
      res := Scan(newScan);
      if k < |w.items| {
        assert w.items[k..][1..] == w.items[k + 1..] && w.items[k..][0] == w.items[k];
        assert k == 0 ==> w.items[k..] == w.items;
      }
    }

    /** The file described by item `i` is open, at its start. */
    ghost predicate Opened(i: Item)
      reads this
    {
      && isOpen && current == i.rec && fOffset == i.Offset() && readOffset == 0
      && fLen == (i.rec.last + 1 - i.rec.first) % U64
    }

    /** Record `i` was just returned. */
    ghost predicate Delivered(i: Item, res: Scanned)
      reads this, base
    {
      && depth < base.Length && res == Found(i.rec) && current == i.rec
      && depth == i.depth && base[depth] == i.base && fOffset == i.Offset()
    }

    /** `sdbfs_close` */
    method Close()
      modifies this`isOpen
      ensures !isOpen
    {
      isOpen := false;
    }

    /** `sdbfs_fread`: negative offsets continue behind the previous read. -2 if nothing is open. */
    method Read(offset: int, count: nat) returns (ret: int, data: seq<Byte>)
      requires isOpen ==> readOffset <= fLen && offset <= fLen
      requires (if offset < 0 then readOffset else offset) + count < 0x8000_0000
      modifies this`readOffset
      ensures !isOpen ==> ret == -2 && data == [] && readOffset == old(readOffset)
      ensures isOpen ==>
        var from := if offset < 0 then old(readOffset) else offset;
        var n := if from + count > fLen then fLen - from else count;
        && ret == n && data == BytesAt(mem, fOffset + from, n)
        && readOffset == if n > 0 then from + n else old(readOffset)
    {
      data := [];
      if !isOpen { return -2, []; }
      var from := if offset < 0 then readOffset else offset;
      var n := if from + count > fLen then fLen - from else count;
      data, ret := BytesAt(mem, fOffset + from, n), n;
      if ret > 0 { readOffset := from + n; }
    }

    /** Reading an open file from its start in pieces of any sizes. */
    method ReadPieces(sizes: seq<nat>) returns (data: seq<Byte>)
      requires isOpen && readOffset == 0 && PiecesFit(sizes, fLen)
      modifies this`readOffset
      ensures data == BytesAt(mem, fOffset, if Sum(sizes) < fLen then Sum(sizes) else fLen)
      ensures readOffset == |data|
    {
      data := [];
      var k := 0;
      ghost var sum := 0;
      while k < |sizes|
        invariant 0 <= k <= |sizes| && sum == Sum(sizes[..k])
        invariant readOffset == if sum < fLen then sum else fLen
        invariant data == BytesAt(mem, fOffset, readOffset)
      {
        var n, piece := Read(-1, sizes[k]);
        BytesJoin(mem, fOffset, |data|, |piece|);
        data := data + piece;
        SumNext(sizes, k);
        sum := sum + sizes[k];
        k := k + 1;
      }
      assert sizes[..k] == sizes;
    }
  }

  datatype Seen = Seen(rec: Record, offset: nat, depth: nat)

  function SeenOf(i: Item): Seen {
    Seen(i.rec, i.Offset(), i.depth)
  }

  /** What was seen is the items in order, as far as there are any. */
  ghost predicate SeenInOrder(out: seq<Seen>, items: seq<Item>) {
    forall k :: 0 <= k < |out| && k < |items| ==> out[k] == SeenOf(items[k])
  }

  lemma NoneSeen(items: seq<Item>)
    ensures SeenInOrder([], items)
  {
  }

  lemma OneMoreSeen(out: seq<Seen>, items: seq<Item>, next: Seen)
    requires SeenInOrder(out, items) && (|out| < |items| ==> next == SeenOf(items[|out|]))
    ensures SeenInOrder(out + [next], items)
  {
  }

  /** `strncmp` on the given length, then a blank unless the name fills the field. */
  predicate Matches(name: seq<Byte>, r: Record) {
    |name| <= 19 && |r.name| == 19 && r.name[..|name|] == name && (|name| < 19 ==> r.name[|name|] == 0x20)
  }

  /** Item `k` is the first that matches. */
  ghost predicate FirstMatch(items: seq<Item>, name: seq<Byte>, k: nat) {
    k < |items| && Matches(name, items[k].rec) && forall j :: 0 <= j < k ==> !Matches(name, items[j].rec)
  }

  /** No piece, from the place it is read at, goes beyond what an `int` can count. */
  ghost predicate PiecesFit(sizes: seq<nat>, len: nat) {
    forall k :: 0 <= k < |sizes| ==> Min(Sum(sizes[..k]), len) + sizes[k] < 0x8000_0000
  }

  function BytesAt(mem: Memory, off: nat, n: nat): (b: seq<Byte>)
    ensures |b| == n
  {
    seq(n, k requires 0 <= k < n => mem(off + k))
  }

  lemma BytesJoin(mem: Memory, off: nat, a: nat, b: nat)
    ensures BytesAt(mem, off, a) + BytesAt(mem, off + a, b) == BytesAt(mem, off, a + b)
  {
  }

  function Sum(sizes: seq<nat>): nat {
    if sizes == [] then 0 else Sum(sizes[..|sizes| - 1]) + sizes[|sizes| - 1]
  }

  lemma SumNext(sizes: seq<nat>, k: nat)
    requires k < |sizes|
    ensures Sum(sizes[..k + 1]) == Sum(sizes[..k]) + sizes[k]
  {
    assert sizes[..k + 1][..k] == sizes[..k];
  }

  lemma RootFirst(rd: Reader, off: nat)
    ensures IsTable(rd(off)) ==> Table(rd, off, 0, 0).items != []
  {
  }

  /** What a continued scan has to offer, split by whether the current record leads into a table. */
  lemma RestIs(rd: Reader, s: Stacks, off: nat, start: nat, d: nat)
    requires s.Counted()
    requires s.current.kind == BRIDGE && s.depth + 1 < DEPTH ==>
      && d == s.depth + 1 && off == (s.base[s.depth] + s.current.child) % U64
      && start == (s.base[s.depth] + s.current.first) % U64
    ensures
      Rest(rd, s) == if s.current.kind == BRIDGE && s.depth + 1 < DEPTH
                     then Then(Table(rd, off, start, d), Above(rd, s, s.depth)) else Above(rd, s, s.depth)
  {
    hide Above, Table;
    ThenNothing(Above(rd, s, s.depth));
  }

  lemma TableMissing(rd: Reader, off: nat, start: nat, d: nat)
    requires d < DEPTH && !IsTable(rd(off))
    ensures Table(rd, off, start, d) == NOTHING
    ensures forall w :: Then(NOTHING, w) == w
  {
    forall w ensures Then(NOTHING, w) == w { ThenNothing(w); }
  }

  /** Entering a table yields its interconnect and leaves its entries; a count of zero is never used up. */
  lemma EnterTable(rd: Reader, s: Stacks, t: Stacks, off: nat, start: nat, d: nat)
    requires t.Shape() && t.depth == d && t.current == rd(off) && IsTable(t.current)
    requires t.base[d] == start && t.cursor[d] == (off + RECORD) % U64 && t.nleft[d] == t.current.records as int - 1
    requires d > 0 ==> s.Counted() && s.depth == d - 1
    requires forall k :: 0 <= k < d ==> s.cursor[k] == t.cursor[k] && s.base[k] == t.base[k] && s.nleft[k] == t.nleft[k]
    ensures
      var w := Then(Table(rd, off, start, d), if d == 0 then NOTHING else Above(rd, s, d - 1));
      && w.items != [] && w.items[0] == Item(t.current, start, d)
      && if w.stuck && |w.items| == 1 then t.Stuck()
         else t.Counted() && Rest(rd, t) == Walk(w.items[1..], w.stuck)
  {
    hide Entries, Then;
    var item := One(Item(t.current, start, d));
    var above := if d == 0 then NOTHING else Above(rd, s, d - 1);
    if t.current.records == 0 {
      assert t.nleft[d] < 0;
      StuckTable(rd, off, start, d, above);
    } else {
      if d > 0 { AboveAgrees(rd, s, t, d - 1); }
      var entries := Entries(rd, t.cursor[d], start, t.nleft[d], d);
      ThenAssociative(item, entries, above);
      ThenNothing(Then(entries, above));
      ThenOne(Item(t.current, start, d), Then(entries, above));
      assert Rest(rd, t) == Then(entries, above);
    }
  }

  lemma StuckTable(rd: Reader, off: nat, start: nat, d: nat, above: Walk)
    requires d < DEPTH && IsTable(rd(off)) && rd(off).records == 0
    ensures Then(Table(rd, off, start, d), above) == Walk([Item(rd(off), start, d)], true)
  {
  }

  lemma StuckBelow(s: Stacks, t: Stacks)
    requires s.Stuck() && t.Shape() && s.depth <= t.depth
    requires forall d :: 0 <= d <= s.depth ==> t.nleft[d] == s.nleft[d]
    ensures t.Stuck()
  {
    var d :| 0 <= d <= s.depth && s.nleft[d] < 0;
    assert t.nleft[d] < 0;
  }

  lemma StuckStays(s: Stacks, t: Stacks)
    requires s.Stuck() && t.Shape() && t.depth == s.depth
    requires forall d :: 0 <= d < DEPTH ==> t.nleft[d] <= s.nleft[d]
    ensures t.Stuck()
  {
    var d :| 0 <= d <= s.depth && s.nleft[d] < 0;
    assert t.nleft[d] < 0;
  }

  lemma EntriesStep(rd: Reader, off: nat, base: nat, n: nat, d: nat)
    requires d < DEPTH && n > 0
    ensures Entries(rd, off, base, n, d)
         == Then(One(Item(rd(off), base, d)),
                 Then(Inside(rd, rd(off), base, d), Entries(rd, (off + RECORD) % U64, base, n - 1, d)))
  {
    hide Then, Inside, One;
  }

  lemma AboveStep(rd: Reader, s: Stacks, d: nat)
    requires s.Counted() && d <= s.depth
    ensures Above(rd, s, d)
         == Then(Entries(rd, s.cursor[d], s.base[d], s.nleft[d], d), if d == 0 then NOTHING else Above(rd, s, d - 1))
  {
    hide Then, Entries;
  }

  /** Taking an entry leaves what is behind it, then the rest of its level and of the levels above. */
  lemma EntryTaken(rd: Reader, s: Stacks, t: Stacks)
    requires s.Counted() && s.nleft[s.depth] > 0
    requires
      var d := s.depth;
      t == Stacks(s.base, s.cursor[d := (s.cursor[d] + RECORD) % U64], s.nleft[d := s.nleft[d] - 1], d, rd(s.cursor[d]))
    ensures t.Counted() && Above(rd, s, s.depth) == Then(One(Item(t.current, s.base[s.depth], s.depth)), Rest(rd, t))
  {
    hide Inside, Then, Entries, Above;
    var d := s.depth;
    if d > 0 { AboveAgrees(rd, s, t, d - 1); }
    EntriesStep(rd, s.cursor[d], s.base[d], s.nleft[d], d);
    AboveStep(rd, s, d);
    AboveStep(rd, t, d);
    var below := if d == 0 then NOTHING else Above(rd, s, d - 1);
    var item, inside := One(Item(t.current, s.base[d], d)), Inside(rd, t.current, s.base[d], d);
    var entries := Entries(rd, t.cursor[d], s.base[d], t.nleft[d], d);
    ThenAssociative(item, Then(inside, entries), below);
    ThenAssociative(inside, entries, below);
  }

  // ---------------------------------------------------------------- an image whose scan never ends

  /** A valid interconnect that counts no records, not even itself. */
  function Uncounted(): Memory {
    (p: nat) => if p == 0 then 0x53 else if p == 1 then 0x44 else if p == 2 then 0x42 else if p == 3 then 0x2d else 0
  }

  lemma UncountedIsTable()
    ensures var r := ReaderOf(Uncounted(), false)(0); IsTable(r) && r.records == 0
  {
    var b := Raw(Uncounted(), 0);
    assert b[0] == 0x53 && b[1] == 0x44 && b[2] == 0x42 && b[3] == 0x2d && b[4] == 0 && b[5] == 0 && b[0x3f] == 0;
  }

  /** However often the image is scanned, there is another record. */
  method ScansForEver(n: nat) returns (out: seq<Seen>, ended: bool)
    ensures !ended && |out| == n
  {
    UncountedIsTable();
    var fs := new Sdbfs(Uncounted(), false, 0);
    assert !TableCounted(ReaderOf(Uncounted(), false), 0, 0, 0);
    out, ended := fs.ScanTimes(n);
  }
}
