/**
 * Writing a placed directory tree into an image file: record encoding, and `write_sdb` with its
 * seeks, block copies and recursion.
 */
module GenImage {
  import opened Bytes
  import opened Sdb
  import opened GenSdbfs

  const BLANK: Byte := 0x20
  const DOT: seq<Byte> := [0x2e]
  const VENDOR: nat := 0x46696c65_44617461   // "FileData"

  /** `htonll`: both halves converted and exchanged. */
  function LongBytes(v: nat): (b: seq<Byte>)
    requires v < U64
    ensures |b| == 8
  {
    WordBytes(v / 0x1_0000_0000) + WordBytes(v % 0x1_0000_0000)
  }

  /** Names are cut at 19 bytes and filled with blanks. */
  function Padded(name: seq<Byte>): (b: seq<Byte>)
    ensures |b| == 19
  {
    if |name| > 19 then name[..19] else name + seq(19 - |name|, _ => BLANK)
  }

  /** A 64-byte record: eight type-specific bytes, the component, the product, the type. */
  function EncodeRecord(head: seq<Byte>, first: nat, last: nat, name: seq<Byte>, kind: Byte): (b: seq<Byte>)
    requires |head| == 8 && first < U64 && last < U64
    ensures |b| == RECORD
  {
    head + LongBytes(first) + LongBytes(last) +
    LongBytes(VENDOR) + Padded(name)[..4] + WordBytes(1) + Zeros(4) + Padded(name) + [kind]
  }

  function EntryRecord(e: Entry): (b: seq<Byte>)
    ensures |b| == RECORD
  {
    match e
    case FileAt(name, flags, first, last, _, _) =>
      EncodeRecord([0, 0, 0, 0] + WordBytes(flags), first % U64, last % U64, name, DEVICE)
    case DirAt(name, first, last, _, child, _) =>
      EncodeRecord(LongBytes(child % U64), first % U64, last % U64, name, BRIDGE)
  }

  function HeadRecord(count: nat, last: nat): (b: seq<Byte>)
    ensures |b| == RECORD
  {
    EncodeRecord(WordBytes(MAGIC) + [count / 0x100 % 0x100, count % 0x100, 1, 1], 0, last % U64, DOT, INTERCONNECT)
  }

  /** The directory's interconnect followed by the records of the first entries. */
  function TableBytes(count: nat, last: nat, es: seq<Entry>): (b: seq<Byte>)
    ensures |b| == RECORD * (|es| + 1)
  {
    if es == [] then HeadRecord(count, last)
    else TableBytes(count, last, es[..|es| - 1]) + EntryRecord(es[|es| - 1])
  }

  function TableOf(l: Layout): seq<Byte> {
    TableBytes(|l.entries| + 1, l.last, l.entries)
  }

  // ---------------------------------------------------------------- what is written where

  /** `bytes` are written at absolute position `pos`; `len` bytes are reserved there. */
  datatype Chunk = Chunk(pos: nat, len: nat, bytes: seq<Byte>)

  /** Everything a layout writes, in the order it is written. */
  function Writes(l: Layout): seq<Chunk>
    decreases l, 1
  {
    var t := TableOf(l);
    [Chunk(l.base + l.ustart, |t|, t)] + EntryWrites(l.base, l.entries)
  }

  function EntryWrites(base: nat, es: seq<Entry>): seq<Chunk>
    decreases es, 0
  {
    if es == [] then [] else EntryWrites(base, es[..|es| - 1]) + OneWrites(base, es[|es| - 1])
  }

  /** Demanded file positions are absolute; they only occur where the base is zero. */
  function OneWrites(base: nat, e: Entry): seq<Chunk>
    decreases e, 2
  {
    match e
    case FileAt(_, _, first, last, pos, data) =>
      [Chunk(if pos.UserAt? then pos.start else base + first, (last + 1 - first) % U64, data)]
    case DirAt(_, _, _, _, _, sub) => Writes(sub)
  }

  // ---------------------------------------------------------------- image files

  /** `img` after writing `b` at `p`; a gap reads as zeros. */
  function WriteAt(img: seq<Byte>, p: nat, b: seq<Byte>): seq<Byte> {
    if b == [] then img
    else seq(Max(|img|, p + |b|), k requires 0 <= k =>
             if p <= k < p + |b| then b[k - p] else if k < |img| then img[k] else 0)
  }

  /** Length and bytes of a written image. */
  lemma WriteAtByte(img: seq<Byte>, p: nat, b: seq<Byte>, k: nat)
    requires b != [] && k < Max(|img|, p + |b|)
    ensures |WriteAt(img, p, b)| == Max(|img|, p + |b|)
    ensures WriteAt(img, p, b)[k] == if p <= k < p + |b| then b[k - p] else if k < |img| then img[k] else 0
  {
  }

  lemma WriteAtJoinByte(img: seq<Byte>, p: nat, a: seq<Byte>, b: seq<Byte>, k: nat)
    requires a != [] && b != []
    requires k < Max(|img|, p + |a| + |b|)
    ensures var x, y := WriteAt(WriteAt(img, p, a), p + |a|, b), WriteAt(img, p, a + b);
            |x| == |y| == Max(|img|, p + |a| + |b|) && x[k] == y[k]
  {
    hide WriteAt;
    var half := WriteAt(img, p, a);
    WriteAtByte(img, p, a, 0);
    WriteAtByte(half, p + |a|, b, k);
    WriteAtByte(img, p, a + b, k);
    if k < |half| {
      WriteAtByte(img, p, a, k);
    }
  }

  /** Two writes in a row are one write of both pieces. */
  lemma WriteAtJoin(img: seq<Byte>, p: nat, a: seq<Byte>, b: seq<Byte>)
    ensures WriteAt(WriteAt(img, p, a), p + |a|, b) == WriteAt(img, p, a + b)
  {
    if a == [] {
      assert a + b == b;
    } else if b == [] {
      assert a + b == a;
    } else {
      WriteAtJoinProper(img, p, a, b);
    }
  }

  lemma WriteAtJoinProper(img: seq<Byte>, p: nat, a: seq<Byte>, b: seq<Byte>)
    requires a != [] && b != []
    ensures WriteAt(WriteAt(img, p, a), p + |a|, b) == WriteAt(img, p, a + b)
  {
    hide WriteAt;
    var x, y := WriteAt(WriteAt(img, p, a), p + |a|, b), WriteAt(img, p, a + b);
    WriteAtJoinByte(img, p, a, b, 0);
    forall k | 0 <= k < |x|
      ensures x[k] == y[k]
    {
      WriteAtJoinByte(img, p, a, b, k);
    }
  }

  function WriteAll(img: seq<Byte>, ws: seq<Chunk>): seq<Byte> {
    if ws == [] then img
    else
      var w := ws[|ws| - 1];
      WriteAt(WriteAll(img, ws[..|ws| - 1]), w.pos, w.bytes)
  }

  lemma {:induction false} WriteAllAppend(img: seq<Byte>, a: seq<Chunk>, b: seq<Chunk>)
    ensures WriteAll(img, a + b) == WriteAll(WriteAll(img, a), b)
    decreases |b|
  {
    hide WriteAt;
    if b == [] {
      assert a + b == a;
    } else {
      WriteAllAppend(img, a, b[..|b| - 1]);
      assert (a + b)[..|a + b| - 1] == a + b[..|b| - 1];
    }
  }

  /** An output stream: contents and position. */
  class OutFile {
    var data: seq<Byte>
    var pos: nat

    constructor ()
      ensures data == [] && pos == 0
    {
      data, pos := [], 0;
    }

    method Seek(p: nat)
      modifies this`pos
      ensures pos == p
    {
      pos := p;
    }

    method Write(b: seq<Byte>)
      modifies this
      ensures data == WriteAt(old(data), old(pos), b) && pos == old(pos) + |b|
    {
      data := WriteAt(data, pos, b);
      pos := pos + |b|;
    }
  }

  /** Copies a file's contents in blocks. */
  method CopyFile(bs: nat, content: seq<Byte>, out: OutFile)
    requires bs > 0
    modifies out
    ensures out.data == WriteAt(old(out.data), old(out.pos), content)
  {
    hide WriteAt;
    ghost var d0, p0 := out.data, out.pos;
    assert content[..0] == [] && WriteAt(d0, p0, []) == d0 by { WriteNothing(d0, p0); }
    var copied := 0;
    while copied < |content|
      invariant 0 <= copied <= |content| && out.pos == p0 + copied
      invariant out.data == WriteAt(d0, p0, content[..copied])
    {
      var j := if |content| - copied < bs then |content| - copied else bs;
      out.Write(content[copied..copied + j]);
      WriteAtJoin(d0, p0, content[..copied], content[copied..copied + j]);
      assert content[..copied] + content[copied..copied + j] == content[..copied + j];
      copied := copied + j;
    }
    assert content[..copied] == content;
  }

  lemma WriteNothing(img: seq<Byte>, p: nat)
    ensures WriteAt(img, p, []) == img
  {
  }

  /** The directory records, written one after the other. */
  method WriteTable(l: Layout, out: OutFile)
    modifies out
    ensures out.data == WriteAt(old(out.data), l.base + l.ustart, TableOf(l))
  {
    hide WriteAt, HeadRecord, EntryRecord;
    ghost var d0, p0 := out.data, l.base + l.ustart;
    out.Seek(l.base + l.ustart);
    out.Write(HeadRecord(|l.entries| + 1, l.last));
    var i := 0;
    assert l.entries[..0] == [];
    while i < |l.entries|
      invariant 0 <= i <= |l.entries| && out.pos == p0 + RECORD * (i + 1)
      invariant out.data == WriteAt(d0, p0, TableBytes(|l.entries| + 1, l.last, l.entries[..i]))
    {
      ghost var before := TableBytes(|l.entries| + 1, l.last, l.entries[..i]);
      out.Write(EntryRecord(l.entries[i]));
      WriteAtJoin(d0, p0, before, EntryRecord(l.entries[i]));
      assert l.entries[..i + 1][..i] == l.entries[..i];
      i := i + 1;
    }
    assert l.entries[..i] == l.entries;
  }

  /** `write_sdb`: the table, then each file or subdirectory. */
  method WriteSdb(bs: nat, l: Layout, out: OutFile)
    requires bs > 0
    modifies out
    ensures out.data == WriteAll(old(out.data), Writes(l))
    decreases l
  {
    hide WriteAt, TableOf, OneWrites;
    ghost var d0 := out.data;
    WriteTable(l, out);
    ghost var head := [Chunk(l.base + l.ustart, |TableOf(l)|, TableOf(l))];
    WriteSingle(d0, head[0]);
    var i := 0;
    assert l.entries[..0] == [] && head + [] == head;
    while i < |l.entries|
      invariant 0 <= i <= |l.entries|
      invariant out.data == WriteAll(d0, head + EntryWrites(l.base, l.entries[..i]))
    {
      WriteEntry(bs, l.base, l.entries[i], out);
      ghost var before, one := EntryWrites(l.base, l.entries[..i]), OneWrites(l.base, l.entries[i]);
      WriteAllAppend(d0, head + before, one);
      ConcatAssociative(head, before, one);
      assert l.entries[..i + 1][..i] == l.entries[..i];
      i := i + 1;
    }
    assert l.entries[..i] == l.entries;
  }

  /** One file or subdirectory. */
  method WriteEntry(bs: nat, base: nat, e: Entry, out: OutFile)
    requires bs > 0
    modifies out
    ensures out.data == WriteAll(old(out.data), OneWrites(base, e))
    decreases e
  {
    hide WriteAt, Writes;
    if e.pos.UserAt? {
      out.Seek(e.pos.start);
    } else {
      out.Seek(base + e.first);
    }
    if e.DirAt? {
      WriteSdb(bs, e.sub, out);
    } else {
      ghost var d0 := out.data;
      CopyFile(bs, e.data, out);
      WriteSingle(d0, OneWrites(base, e)[0]);
    }
  }

  lemma WriteSingle(img: seq<Byte>, w: Chunk)
    ensures WriteAll(img, [w]) == WriteAt(img, w.pos, w.bytes)
  {
    assert [w][..0] == [];
    assert WriteAll(img, []) == img;
  }
}
