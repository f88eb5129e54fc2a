/**
 * The records of an image byte by byte, as section 4.3 of the SDB specification 1.1 lays them out, and the place
 * each table and file is written to.
 */
module GenRecords {
  import opened Bytes
  import opened Sdb
  import opened SdbTables
  import opened GenSdbfs
  import opened GenImage
  import opened RoundTrip

  /** Byte `k` of a name in a record: names are cut at 19 bytes and followed by blanks. */
  lemma NameByte(name: seq<Byte>, k: nat)
    requires k < 19
    ensures Padded(name)[k] == if k < |name| then name[k] else 0x20
  {
  }

  lemma VendorBytes()
    ensures LongBytes(VENDOR) == [0x46, 0x69, 0x6C, 0x65, 0x44, 0x61, 0x74, 0x61]
  {
    hide *;
    VendorHalves();
    FileBytes();
    DataBytes();
    assert [0x46, 0x69, 0x6C, 0x65] + [0x44, 0x61, 0x74, 0x61] == [0x46, 0x69, 0x6C, 0x65, 0x44, 0x61, 0x74, 0x61];
  }

  lemma FileBytes()
    ensures WordBytes(0x4669_6C65) == [0x46, 0x69, 0x6C, 0x65]
  {
    hide WordBytes;
    WordBytesAre(0x4669_6C65);
  }

  lemma DataBytes()
    ensures WordBytes(0x4461_7461) == [0x44, 0x61, 0x74, 0x61]
  {
    hide WordBytes;
    WordBytesAre(0x4461_7461);
  }

  lemma VendorHalves()
    ensures LongBytes(VENDOR) == WordBytes(0x4669_6C65) + WordBytes(0x4461_7461)
  {
    hide WordBytes;
  }

  lemma LongBytesAre(b: seq<Byte>, at: nat, v: nat)
    requires at + 8 <= |b| && v < U64 && b[at..at + 8] == LongBytes(v)
    ensures BigEndian(b, at, 8) == v
  {
    LongRoundTrip(b, at, v);
    EightBytes(b, at);
  }

  /** The common parts of a record. */
  lemma RecordBytes(head: seq<Byte>, first: nat, last: nat, name: seq<Byte>, kind: Byte)
    requires |head| == 8 && first < U64 && last < U64
    ensures
      var b := EncodeRecord(head, first, last, name, kind);
      && b[..8] == head && BigEndian(b, 8, 8) == first && BigEndian(b, 16, 8) == last
      && b[24..32] == [0x46, 0x69, 0x6C, 0x65, 0x44, 0x61, 0x74, 0x61]
      && b[32..36] == b[44..48] && b[36..40] == [0, 0, 0, 1] && b[40..44] == [0, 0, 0, 0]
      && (forall k :: 0 <= k < 19 ==> b[44..63][k] == if k < |name| then name[k] else 0x20)
      && b[63] == kind
  {
    hide EncodeRecord, LongBytes, BigEndian, Padded, WordBytes;
    var b := EncodeRecord(head, first, last, name, kind);
    Pieces(head, first, last, name, kind);
    LongBytesAre(b, 8, first);
    LongBytesAre(b, 16, last);
    assert b[24..32] == [0x46, 0x69, 0x6C, 0x65, 0x44, 0x61, 0x74, 0x61] by { VendorBytes(); }
    assert b[36..40] == [0, 0, 0, 1] by { WordBytesAre(1); }
    assert Zeros(4) == [0, 0, 0, 0];
    PaddedBytes(b[44..63], name);
  }

  lemma PaddedBytes(s: seq<Byte>, name: seq<Byte>)
    requires s == Padded(name)
    ensures forall k :: 0 <= k < 19 ==> s[k] == if k < |name| then name[k] else 0x20
  {
    forall k | 0 <= k < 19
      ensures s[k] == if k < |name| then name[k] else 0x20
    {
      NameByte(name, k);
    }
  }

  lemma Pieces(head: seq<Byte>, first: nat, last: nat, name: seq<Byte>, kind: Byte)
    requires |head| == 8 && first < U64 && last < U64
    ensures
      var b := EncodeRecord(head, first, last, name, kind);
      && b[..8] == head && b[8..16] == LongBytes(first) && b[16..24] == LongBytes(last)
      && b[24..32] == LongBytes(VENDOR) && b[32..36] == b[44..48] && b[36..40] == WordBytes(1)
      && b[40..44] == Zeros(4) && b[44..63] == Padded(name) && b[63] == kind
  {
    hide LongBytes, Padded, WordBytes;
  }

  /**
   * The record of a file: four zero bytes, its flags, type 1. That of a directory: where its table is, type 2. Both
   * have the first and last address and the name.
   */
  lemma EntryBytes(e: Entry)
    ensures
      var b := EntryRecord(e);
      && |b| == 64 && BigEndian(b, 8, 8) == e.first % 0x1_0000_0000_0000_0000
      && BigEndian(b, 16, 8) == e.last % 0x1_0000_0000_0000_0000
      && (forall k :: 0 <= k < 19 ==> b[44..63][k] == if k < |e.name| then e.name[k] else 0x20)
      && (e.FileAt? ==> b[..4] == [0, 0, 0, 0] && BigEndian(b, 4, 4) == e.flags && b[63] == 1)
      && (e.DirAt? ==> BigEndian(b, 0, 8) == e.child % 0x1_0000_0000_0000_0000 && b[63] == 2)
  {
    hide EncodeRecord, LongBytes, BigEndian, WordBytes;
    var b := EntryRecord(e);
    match e {
      case FileAt(name, flags, first, last, _, _) =>
        var head := [0, 0, 0, 0] + WordBytes(flags);
        RecordBytes(head, first % U64, last % U64, name, DEVICE);
        assert b[..4] == head[..4] == [0, 0, 0, 0];
        assert b[4..8] == head[4..8] == WordBytes(flags);
        FlagBytes(b, flags);
      case DirAt(name, first, last, _, child, _) =>
        RecordBytes(LongBytes(child % U64), first % U64, last % U64, name, BRIDGE);
        assert b[0..0 + 8] == LongBytes(child % U64);
        LongBytesAre(b, 0, child % U64);
    }
  }

  lemma FlagBytes(b: seq<Byte>, flags: Word)
    requires |b| == 64 && b[4..8] == WordBytes(flags)
    ensures BigEndian(b, 4, 4) == flags
  {
    DecodeEncode(flags);
    FourBytes(b, 4);
    assert forall k :: 0 <= k < 4 ==> b[4..8][k] == b[4 + k];
    hide WordBytes, BigEndian;
  }

  /** The head of a table: magic, number of records, version 1, bus type 1, from address 0 to the last one, a dot. */
  lemma HeadBytes(count: nat, last: nat)
    ensures
      var b := HeadRecord(count, last);
      && |b| == 64 && b[..4] == [0x53, 0x44, 0x42, 0x2D] && BigEndian(b, 4, 2) == count % 0x1_0000
      && b[6] == 1 && b[7] == 1
      && BigEndian(b, 8, 8) == 0 && BigEndian(b, 16, 8) == last % 0x1_0000_0000_0000_0000
      && (forall k :: 0 <= k < 19 ==> b[44..63][k] == if k == 0 then 0x2E else 0x20)
      && b[63] == 0
  {
    hide EncodeRecord, BigEndian, WordBytes;
    var b, head := HeadRecord(count, last), WordBytes(MAGIC) + [count / 0x100 % 0x100, count % 0x100, 1, 1];
    RecordBytes(head, 0, last % U64, DOT, INTERCONNECT);
    MagicBytes();
    assert b[..4] == head[..4] == WordBytes(MAGIC);
    assert forall k :: 0 <= k < 8 ==> b[..8][k] == b[k];
    CountBytes(count);
    TwoBytes(b, 4);
  }

  lemma MagicBytes()
    ensures WordBytes(MAGIC) == [0x53, 0x44, 0x42, 0x2D]
  {
    WordBytesAre(0x5344_422D);
  }

  lemma CountBytes(count: nat)
    ensures count / 0x100 % 0x100 * 0x100 + count % 0x100 == count % 0x1_0000
  {
    var q, r, t := count / 0x1_0000, count / 0x100 % 0x100, count % 0x100;
    assert count / 0x100 == 0x100 * (count / 0x100 / 0x100) + r;
    assert count == 0x100 * (count / 0x100) + t;
    RemainderOf(count, 0x1_0000, count / 0x100 / 0x100, 0x100 * r + t);
  }

  // ---------------------------------------------------------------- places

  /** Something is written at `pos`, within `len` bytes reserved there. */
  ghost predicate WrittenAt(ws: seq<Chunk>, pos: nat, len: nat, bytes: seq<Byte>) {
    exists i :: 0 <= i < |ws| && ws[i].pos == pos && ws[i].len == len && ws[i].bytes == bytes
  }

  /**
   * A directory writes its table first, at its own position from its base on; then every file, where it was demanded or
   * at its relative address, its size being reserved; and all that its subdirectories write.
   */
  lemma PlacesWritten(l: Layout, k: nat)
    requires k < |l.entries|
    ensures
      var ws, e := Writes(l), l.entries[k];
      && |ws| > 0 && ws[0] == Chunk(l.base + l.ustart, 64 * (|l.entries| + 1), TableOf(l))
      && (e.FileAt? ==> WrittenAt(ws, if e.pos.UserAt? then e.pos.start else l.base + e.first,
                                  (e.last + 1 - e.first) % 0x1_0000_0000_0000_0000, e.data))
      && (e.DirAt? ==> forall w :: w in Writes(e.sub) ==> w in ws)
  {
    assert |TableOf(l)| == 64 * (|l.entries| + 1);
    hide TableOf, OneWrites, EntryWrites;
    var e, ws := l.entries[k], Writes(l);
    assert ws[0] == Chunk(l.base + l.ustart, 64 * (|l.entries| + 1), TableOf(l));
    EntryWritten(l.base, l.entries, k);
    assert forall w :: w in OneWrites(l.base, e) ==> w in ws;
    hide Writes;
    OneWritten(l.base, e);
    if e.FileAt? {
      Found(ws, OneWrites(l.base, e)[0]);
    }
  }

  lemma OneWritten(base: nat, e: Entry)
    ensures e.DirAt? ==> OneWrites(base, e) == Writes(e.sub)
    ensures e.FileAt? ==> OneWrites(base, e)
                          == [Chunk(if e.pos.UserAt? then e.pos.start else base + e.first,
                                    (e.last + 1 - e.first) % 0x1_0000_0000_0000_0000, e.data)]
  {
    hide Writes;
  }

  lemma Found(ws: seq<Chunk>, w: Chunk)
    requires w in ws
    ensures WrittenAt(ws, w.pos, w.len, w.bytes)
  {
    var i :| 0 <= i < |ws| && ws[i] == w;
    assert ws[i].pos == w.pos;
  }

  lemma {:induction false} EntryWritten(base: nat, es: seq<Entry>, k: nat)
    requires k < |es|
    ensures forall w :: w in OneWrites(base, es[k]) ==> w in EntryWrites(base, es)
    decreases |es|
  {
    hide OneWrites;
    if k < |es| - 1 {
      EntryWritten(base, es[..|es| - 1], k);
    }
  }
}
