/**
 * The format version of a table. The SDB specification, section 4.4.1, wants enumeration to stop at an
 * unknown one; the library does not look, and no version stops a scan.
 */
module SdbVersion {
  import opened Bytes
  import opened Sdb

  const VERSION_AT: nat := 6

  /** The same record, but for bytes of an interconnect that only a bridge has a use for. */
  ghost predicate Alike(r: Record, r': Record) {
    r' == r || (r.kind == INTERCONNECT && r' == r.(child := r'.child))
  }

  /** The version of an interconnect, byte 6, is not looked at: with any other the record means the same. */
  lemma VersionIgnored(b: seq<Byte>, version: Byte)
    requires |b| == RECORD && Decode(b).kind == INTERCONNECT
    ensures Alike(Decode(b), Decode(b[VERSION_AT := version]))
    ensures IsTable(Decode(b[VERSION_AT := version])) == IsTable(Decode(b))
  {
    hide Join;
    var b' := b[VERSION_AT := version];
    assert WordAt(b', 0) == WordAt(b, 0);
    assert WordAt(b', 8) == WordAt(b, 8) && WordAt(b', 12) == WordAt(b, 12);
    assert WordAt(b', 16) == WordAt(b, 16) && WordAt(b', 20) == WordAt(b, 20);
    assert b'[0x2c..0x3f] == b[0x2c..0x3f];
  }

  ghost predicate AlikeWalks(w: Walk, w': Walk) {
    && w.stuck == w'.stuck && |w.items| == |w'.items|
    && forall k :: 0 <= k < |w.items| ==>
         var i, i' := w.items[k], w'.items[k];
         Alike(i.rec, i'.rec) && i.base == i'.base && i.depth == i'.depth && i.Offset() == i'.Offset()
  }

  lemma AlikeThen(a: Walk, a': Walk, b: Walk, b': Walk)
    requires AlikeWalks(a, a') && AlikeWalks(b, b')
    ensures AlikeWalks(Then(a, b), Then(a', b'))
  {
  }

  lemma AlikeOne(r: Record, r': Record, base: nat, depth: nat)
    requires Alike(r, r')
    ensures AlikeWalks(One(Item(r, base, depth)), One(Item(r', base, depth)))
    ensures AlikeWalks(Walk([Item(r, base, depth)], true), Walk([Item(r', base, depth)], true))
  {
  }

  /** Wherever a walk reads a record, the other reader gives one that is alike. */
  ghost predicate TableAlike(rd: Reader, rd': Reader, off: nat, base: nat, depth: nat)
    requires depth < DEPTH
    decreases DEPTH - depth, 0x1_0000
  {
    Alike(rd(off), rd'(off))
    && (IsTable(rd(off)) && rd(off).records > 0 ==>
          EntriesAlike(rd, rd', (off + RECORD) % U64, base, rd(off).records as int - 1, depth))
  }

  ghost predicate EntriesAlike(rd: Reader, rd': Reader, off: nat, base: nat, n: nat, depth: nat)
    requires depth < DEPTH
    decreases DEPTH - depth, n
  {
    n > 0 ==>
      var r := rd(off);
      && Alike(r, rd'(off))
      && (r.kind == BRIDGE && depth + 1 < DEPTH ==>
            TableAlike(rd, rd', (base + r.child) % U64, (base + r.first) % U64, depth + 1))
      && EntriesAlike(rd, rd', (off + RECORD) % U64, base, n - 1, depth)
  }

  /** Then the walks are alike: the same records, at the same offsets, with the same end. */
  lemma {:induction false} AlikeTables(rd: Reader, rd': Reader, off: nat, base: nat, depth: nat)
    requires depth < DEPTH && TableAlike(rd, rd', off, base, depth)
    ensures AlikeWalks(Table(rd, off, base, depth), Table(rd', off, base, depth))
    decreases DEPTH - depth, 0x1_0000
  {
    hide AlikeWalks, One, Then, Entries;
    var r, r', next := rd(off), rd'(off), (off + RECORD) % U64;
    AlikeOne(r, r', base, depth);
    if !IsTable(r) {
      AlikeNothing();
    } else if r.records > 0 {
      var n := r.records as int - 1;
      AlikeEntries(rd, rd', next, base, n, depth);
      AlikeThen(One(Item(r, base, depth)), One(Item(r', base, depth)),
                Entries(rd, next, base, n, depth), Entries(rd', next, base, n, depth));
    }
  }

  lemma {:induction false} AlikeEntries(rd: Reader, rd': Reader, off: nat, base: nat, n: nat, depth: nat)
    requires depth < DEPTH && EntriesAlike(rd, rd', off, base, n, depth)
    ensures AlikeWalks(Entries(rd, off, base, n, depth), Entries(rd', off, base, n, depth))
    decreases DEPTH - depth, n
  {
    hide AlikeWalks, One, Then, Table;
    AlikeNothing();
    if n > 0 {
      var r, r', next := rd(off), rd'(off), (off + RECORD) % U64;
        AlikeOne(r, r', base, depth);
      if r.kind == BRIDGE && depth + 1 < DEPTH {
        AlikeTables(rd, rd', (base + r.child) % U64, (base + r.first) % U64, depth + 1);
      }
      AlikeEntries(rd, rd', next, base, n - 1, depth);
      var inside, inside' := Inside(rd, r, base, depth), Inside(rd', r', base, depth);
      var rest, rest' := Entries(rd, next, base, n - 1, depth), Entries(rd', next, base, n - 1, depth);
      AlikeThen(inside, inside', rest, rest');
      AlikeThen(One(Item(r, base, depth)), One(Item(r', base, depth)), Then(inside, rest), Then(inside', rest'));
    }
  }

  lemma AlikeNothing()
    ensures AlikeWalks(NOTHING, NOTHING)
  {
  }

  // ---------------------------------------------------------------- images that differ in versions

  /** The images differ in nothing but the version bytes of interconnects at multiples of the record size. */
  ghost predicate VersionsDiffer(mem: Memory, mem': Memory) {
    forall p: nat :: mem'(p) != mem(p) ==>
      p % RECORD == VERSION_AT && Decode(Raw(mem, p - VERSION_AT)).kind == INTERCONNECT
  }

  lemma InRecord(off: nat, k: nat)
    requires off % RECORD == 0 && k < RECORD
    ensures (off + k) % RECORD == k
  {
  }

  lemma RawButVersion(mem: Memory, mem': Memory, off: nat)
    requires VersionsDiffer(mem, mem') && off % RECORD == 0
    ensures Raw(mem', off) == Raw(mem, off)[VERSION_AT := mem'(off + VERSION_AT)]
  {
    hide Decode;
    forall k | 0 <= k < RECORD && k != VERSION_AT
      ensures Raw(mem', off)[k] == Raw(mem, off)[k]
    {
      InRecord(off, k);
    }
  }

  lemma RecordAlike(mem: Memory, mem': Memory, off: nat)
    requires VersionsDiffer(mem, mem') && off % RECORD == 0
    ensures Alike(ReaderOf(mem, false)(off), ReaderOf(mem', false)(off))
  {
    RawButVersion(mem, mem', off);
    var b, version := Raw(mem, off), mem'(off + VERSION_AT);
    assert b[VERSION_AT] == mem(off + VERSION_AT);
    InRecord(off, VERSION_AT);
    hide Decode, Raw;
    if version == mem(off + VERSION_AT) {
      assert b[VERSION_AT := version] == b;
    } else {
      VersionIgnored(b, version);
    }
  }

  lemma NextRecord(off: nat)
    requires off % RECORD == 0
    ensures (off + RECORD) % U64 % RECORD == 0
  {
  }

  lemma {:induction false} ImageTableAlike(mem: Memory, mem': Memory, off: nat, base: nat, depth: nat)
    requires depth < DEPTH && VersionsDiffer(mem, mem')
    requires TableAligned(ReaderOf(mem, false), off, base, depth, RECORD)
    ensures TableAlike(ReaderOf(mem, false), ReaderOf(mem', false), off, base, depth)
    decreases DEPTH - depth, 0x1_0000
  {
    hide VersionsDiffer, ReaderOf, Alike;
    RecordAlike(mem, mem', off);
    var r := ReaderOf(mem, false)(off);
    if IsTable(r) && r.records > 0 {
      NextRecord(off);
      ImageEntriesAlike(mem, mem', (off + RECORD) % U64, base, r.records as int - 1, depth);
    }
  }

  lemma {:induction false} ImageEntriesAlike(mem: Memory, mem': Memory, off: nat, base: nat, n: nat, depth: nat)
    requires depth < DEPTH && VersionsDiffer(mem, mem') && off % RECORD == 0
    requires EntriesAligned(ReaderOf(mem, false), off, base, n, depth, RECORD)
    ensures EntriesAlike(ReaderOf(mem, false), ReaderOf(mem', false), off, base, n, depth)
    decreases DEPTH - depth, n
  {
    hide VersionsDiffer, ReaderOf, Alike;
    if n > 0 {
      RecordAlike(mem, mem', off);
      NextRecord(off);
      var r := ReaderOf(mem, false)(off);
      if r.kind == BRIDGE && depth + 1 < DEPTH {
        ImageTableAlike(mem, mem', (base + r.child) % U64, (base + r.first) % U64, depth + 1);
      }
      ImageEntriesAlike(mem, mem', (off + RECORD) % U64, base, n - 1, depth);
    }
  }

  /** Two images that differ in versions only are scanned alike. */
  lemma AnyVersionIsScanned(mem: Memory, mem': Memory, entrypoint: nat)
    requires VersionsDiffer(mem, mem') && TableAligned(ReaderOf(mem, false), entrypoint, 0, 0, RECORD)
    ensures AlikeWalks(Table(ReaderOf(mem, false), entrypoint, 0, 0), Table(ReaderOf(mem', false), entrypoint, 0, 0))
  {
    ImageTableAlike(mem, mem', entrypoint, 0, 0);
    AlikeTables(ReaderOf(mem, false), ReaderOf(mem', false), entrypoint, 0, 0);
  }

  /** `mem` with another byte at `p`. */
  function WithByte(mem: Memory, p: nat, b: Byte): Memory {
    (q: nat) => if q == p then b else mem(q)
  }

  lemma OtherVersionDiffers(mem: Memory, at: nat, version: Byte)
    requires at % RECORD == 0 && Decode(Raw(mem, at)).kind == INTERCONNECT
    ensures VersionsDiffer(mem, WithByte(mem, at + VERSION_AT, version))
    ensures WithByte(mem, at + VERSION_AT, version)(at + VERSION_AT) == version
  {
    InRecord(at, VERSION_AT);
    hide Decode, Raw;
  }

  /** Any image with any other version in its root table: it really is another image, scanned alike. */
  lemma UnknownVersionIsScanned(mem: Memory, entrypoint: nat, version: Byte)
    requires Decode(Raw(mem, entrypoint)).kind == INTERCONNECT && version != mem(entrypoint + VERSION_AT)
    requires TableAligned(ReaderOf(mem, false), entrypoint, 0, 0, RECORD)
    ensures
      var mem' := WithByte(mem, entrypoint + VERSION_AT, version);
      && mem'(entrypoint + VERSION_AT) != mem(entrypoint + VERSION_AT)
      && AlikeWalks(Table(ReaderOf(mem, false), entrypoint, 0, 0), Table(ReaderOf(mem', false), entrypoint, 0, 0))
  {
    assert entrypoint % RECORD == 0;
    OtherVersionDiffers(mem, entrypoint, version);
    hide *;
    AnyVersionIsScanned(mem, WithByte(mem, entrypoint + VERSION_AT, version), entrypoint);
  }
}
