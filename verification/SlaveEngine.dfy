/**
 * The slave side of the character device: requests of the hardware are read out as Etherbone records
 * and answered by records written in, with a reply owed for every request taken.
 */
module SlaveEngine {
  import opened Bytes
  import opened Records
  import opened Etherbone
  import opened SlaveFile
  import opened SlaveSpec

  datatype Pending = NoRequest | Taken(request: Request)

  /** The requesting hardware: waiting requests, and what was taken and replied since the slave file was opened. */
  class Hardware {
    var queue: seq<Request>
    var taken: seq<Request>
    var replies: seq<Reply>
    var busy: bool

    constructor ()
      ensures queue == [] && taken == [] && replies == [] && !busy
    {
      queue, taken, replies, busy := [], [], [], false;
    }

    method Raise(q: Request)
      modifies this`queue
      ensures queue == old(queue) + [q]
    {
      queue := queue + [q];
    }

    method Request() returns (p: Pending)
      modifies this`queue, this`taken
      ensures old(queue) == [] ==> p == NoRequest && unchanged(this)
      ensures old(queue) != [] ==>
        p == Taken(old(queue)[0]) && queue == old(queue)[1..] && taken == old(taken) + [old(queue)[0]]
    {
      if queue == [] { return NoRequest; }
      p := Taken(queue[0]);
      taken := taken + [queue[0]];
      queue := queue[1..];
    }

    method Reply(err: bool, data: Word)
      modifies this`replies
      ensures replies == old(replies) + [SlaveSpec.Reply(err, data)]
    {
      replies := replies + [SlaveSpec.Reply(err, data)];
    }
  }

  class SlaveContext {
    const hw: Hardware
    var pendingErr: Word
    var negotiated: bool
    var data: Word
    var rbufDone: nat
    var rbufEnd: nat
    const rbuf: array<Byte>
    var wbufFill: nat
    const wbuf: array<Byte>
    ghost var delivered: seq<Byte>          // every byte read out
    ghost var handled: seq<seq<Byte>>       // every record handed to InProcess

    /** The input state of the specification. */
    ghost function In(): Input
      reads this, wbuf, hw
      requires wbufFill <= wbuf.Length
    {
      Input(negotiated, wbuf[..wbufFill], Regs(pendingErr, data, hw.replies), handled)
    }

    /** The open file without its buffers. */
    ghost function View(): File
      reads this, wbuf, hw
      requires wbufFill <= wbuf.Length
    {
      File(In(), hw.queue, hw.taken, delivered)
    }

    ghost predicate Shape()
      reads this, rbuf, wbuf, hw
    {
      && rbuf.Length == 24 && wbuf.Length == 2052 && rbuf != wbuf
      && rbufDone <= rbufEnd <= 24
      && wbufFill <= 2052 && InputInv(In())
    }

    /** The read buffer holds what is owed and not read yet. */
    ghost predicate Owing()
      reads this, rbuf, hw, wbuf
    {
      && rbufDone <= rbufEnd <= rbuf.Length && wbufFill <= wbuf.Length
      && delivered + rbuf[rbufDone..rbufEnd] == Owed(View())
    }

    ghost predicate Valid()
      reads this, rbuf, wbuf, hw
    {
      Shape() && Owing() && hw.busy
    }

    /** `char_slave_open` on a device that is not open yet; `garbage` is what the allocator left in `data`. */
    constructor (hw: Hardware, garbage: Word)
      requires !hw.busy
      modifies hw
      ensures this.hw == hw && Valid() && fresh(rbuf) && fresh(wbuf)
      ensures View() == Start(garbage).(queue := old(hw.queue))
    {
      this.hw := hw;
      pendingErr, negotiated, data, wbufFill := 0, false, garbage, 0;
      rbufDone, rbufEnd, delivered, handled := 0, 8, [], [];
      rbuf, wbuf := new Byte[24], new Byte[2052];
      new;
      hide RecordLen;
      hw.busy, hw.taken, hw.replies := true, [], [];
      PutProbe();
      assert Owed(View()) == PROBE + [];
    }

    /** The probe, at the start of the read buffer. */
    method PutProbe()
      requires rbuf.Length == 24
      modifies rbuf
      ensures rbuf[0..8] == PROBE
    {
      rbuf[0], rbuf[1], rbuf[2], rbuf[3] := 0x4E, 0x6F, 0x11, 0x44;
      rbuf[4], rbuf[5], rbuf[6], rbuf[7] := 0, 0, 0, 0;
    }

    /** `etherbone_slave_out_process`: takes the next request once the reader has everything before it. */
    method OutProcess()
      requires Valid()
      modifies this`rbufDone, this`rbufEnd, this`pendingErr, rbuf, hw`queue, hw`taken
      ensures Valid() && View() == TakeNext(old(View()))
    {
      hide Encode, EncodeAll, RequestRecord, RecordLen;
      NothingLeft();
      if rbufDone != rbufEnd || !negotiated { return; }
      var p := hw.Request();
      if p == NoRequest { return; }
      pendingErr := (pendingErr as int + 1) % UINT;
      assert hw.taken[..|hw.taken| - 1] == old(hw.taken);
      Refill(p.request);
    }

    /** The buffer is read empty exactly when the reader has everything owed. */
    lemma NothingLeft()
      requires Valid()
      ensures rbufDone == rbufEnd <==> delivered == Owed(View())
      ensures |delivered| <= |Owed(View())| && rbufEnd - rbufDone == |Owed(View())| - |delivered|
    {
      hide EncodeAll, InputInv;
      assert delivered + [] == delivered;
    }

    /** Fills the empty buffer with the request just taken. */
    method Refill(q: Request)
      requires Shape() && hw.busy && hw.taken != [] && hw.taken[|hw.taken| - 1] == q
      requires delivered == PROBE + EncodeAll(hw.taken[..|hw.taken| - 1])
      modifies this`rbufDone, this`rbufEnd, rbuf
      ensures Valid() && View() == old(View())
    {
      hide Encode, RequestRecord, RecordLen, InputInv;
      rbufDone := 0;
      FillBuffer(q);
      rbufEnd := 24;
      assert rbuf[0..24] == rbuf[..];
      EncodeNext(hw.taken[..|hw.taken| - 1], q);
      assert hw.taken == hw.taken[..|hw.taken| - 1] + [q];
    }

    /** Writes the 24-byte encoding of `q`. */
    method FillBuffer(q: Request)
      requires rbuf.Length == 24
      modifies rbuf
      ensures rbuf[..] == Encode(q)
    {
      rbuf[0], rbuf[1] := 0x80, q.mask;
      if q.write {
        rbuf[2], rbuf[3] := 1, 0;
        StoreWord(4, q.addr);
        StoreWord(8, q.data);
      } else {
        rbuf[2], rbuf[3] := 0, 1;
        StoreWord(4, WBA_DATA);
        StoreWord(8, q.addr);
      }
      assert rbuf[..12] == RequestRecord(q) by { WordBytesAre(WBA_DATA); }
      PutErrorRecord();
      assert rbuf[..] == rbuf[..12] + rbuf[12..];
    }

    /** The record that reads the error register back, behind the request's own. */
    method PutErrorRecord()
      requires rbuf.Length == 24
      modifies rbuf
      ensures rbuf[..12] == old(rbuf[..12]) && rbuf[12..] == ERROR_RECORD
    {
      rbuf[12], rbuf[13], rbuf[14], rbuf[15] := 0x08 + 0x80 + 0x40, 0xf, 0, 1;
      StoreWord(16, WBA_ERR);
      StoreWord(20, 4);
      WordBytesAre(WBA_ERR);
      WordBytesAre(4);
    }

    /** `eb_from_cpu` into the read buffer. */
    method StoreWord(at: nat, w: Word)
      requires rbuf.Length == 24 && at + 4 <= 24
      modifies rbuf
      ensures forall k :: 0 <= k < 24 ==> rbuf[k] == if at <= k < at + 4 then WordBytes(w)[k - at] else old(rbuf[k])
    {
      var b := WordBytes(w);
      rbuf[at], rbuf[at + 1], rbuf[at + 2], rbuf[at + 3] := b[0], b[1], b[2], b[3];
    }

    /** `char_slave_aio_read` with room for `room` bytes. */
    method Read(room: nat) returns (bytes: seq<Byte>)
      requires Valid()
      modifies this`rbufDone, this`rbufEnd, this`pendingErr, this`delivered, rbuf, hw`queue, hw`taken
      ensures |old(delivered)| <= |Owed(old(View()))|
      ensures Valid() && (View(), Got(bytes)) == Serve(ReadUpTo(room), old(View()))
    {
      hide EncodeAll, InputInv, Owed;
      NothingLeft();
      if room == 0 { return []; }
      OutProcess();
      NothingLeft();
      bytes := CopyOut(Min(room, rbufEnd - rbufDone));
    }

    /** Copies the next `len` owed bytes to the reader. */
    method CopyOut(len: nat) returns (bytes: seq<Byte>)
      requires Valid() && len <= rbufEnd - rbufDone
      modifies this`rbufDone, this`delivered
      ensures Valid() && |old(delivered)| + len <= |Owed(old(View()))|
      ensures bytes == Owed(old(View()))[|old(delivered)|..|old(delivered)| + len]
      ensures View() == old(View()).(given := old(delivered) + bytes)
    {
      hide EncodeAll, InputInv;
      bytes := rbuf[rbufDone..rbufDone + len];
      assert rbuf[rbufDone..rbufEnd] == bytes + rbuf[rbufDone + len..rbufEnd];
      ConcatAssociative(delivered, bytes, rbuf[rbufDone + len..rbufEnd]);
      delivered := delivered + bytes;
      rbufDone := rbufDone + len;
    }

    /** `char_slave_poll`: whether there is something to read. */
    method Poll() returns (readable: bool)
      requires Valid()
      modifies this`rbufDone, this`rbufEnd, this`pendingErr, rbuf, hw`queue, hw`taken
      ensures |old(delivered)| <= |Owed(old(View()))|
      ensures Valid() && (View(), Readable(readable)) == Serve(Call.Poll, old(View()))
    {
      hide EncodeAll, InputInv, Owed;
      NothingLeft();
      OutProcess();
      NothingLeft();
      readable := rbufDone != rbufEnd;
    }

    ghost function Registers(): Regs
      reads this, hw
    {
      Regs(pendingErr, data, hw.replies)
    }

    /** One written word: the `switch` on the address. */
    method StoreRegister(addr: Word, w: Word) returns (ok: bool)
      modifies this`data, this`pendingErr, hw`replies
      ensures Verdict(Registers(), ok) == WriteReg(old(Registers()), addr, w)
    {
      if addr == WBA_DATA {
        data := w;
      } else if addr == WBA_ERR {
        if pendingErr == 0 { return false; }
        pendingErr := pendingErr - 1;
        hw.Reply(w % 2 == 1, data);
      } else {
        return false;
      }
      ok := true;
    }

    /** `etherbone_slave_in_process`: the record `rec` stands at the start of the write buffer. */
    method InProcess(ghost rec: seq<Byte>) returns (ok: bool)
      requires IsRecord(rec) && |rec| <= wbuf.Length && wbuf[..|rec|] == rec
      modifies this`data, this`pendingErr, hw`replies
      ensures Verdict(Registers(), ok) == Handle(old(Registers()), rec)
    {
      hide WriteReg, Flag;
      var flags, be, wcount, rcount := wbuf[0], wbuf[1], wbuf[2], wbuf[3];
      assert flags == rec[0] && be == rec[1] && wcount == rec[2] && rcount == rec[3];
      if rcount != 0 { return false; }
      if wcount == 0 { return true; }
      if be != 0xf { return false; }
      if !Flag(flags, WCA) { return false; }
      var base, wff := Join(wbuf[4], wbuf[5], wbuf[6], wbuf[7]), Flag(flags, WFF);
      assert base == WordAt(rec, 4);
      ghost var total := Handle(Registers(), rec);
      var j := 0;
      while j < wcount as int
        invariant 0 <= j <= wcount as int
        invariant total == WriteWords(Registers(), base, wff, rec, j)
      {
        var p := 8 + 4 * j;
        var w := Join(wbuf[p], wbuf[p + 1], wbuf[p + 2], wbuf[p + 3]);
        assert w == WordAt(rec, p);
        var stored := StoreRegister(base, w);
        if !stored { return false; }
        base := NextAddr(base, wff);
        j := j + 1;
      }
      ok := true;
    }

    /** Appends `chunk` to the collected bytes. */
    method Collect(chunk: seq<Byte>)
      requires wbufFill + |chunk| <= wbuf.Length
      modifies this`wbufFill, wbuf
      ensures wbufFill == old(wbufFill) + |chunk| && wbuf[..wbufFill] == old(wbuf[..wbufFill]) + chunk
    {
      forall k | 0 <= k < |chunk| { wbuf[wbufFill + k] := chunk[k]; }
      wbufFill := wbufFill + |chunk|;
    }

    /**
     * One iteration of the write loop on the bytes from `off` on: some are used up, or a waiting
     * four-byte unit is disposed of.
     */
    method Iterate(bytes: seq<Byte>, off: nat) returns (len: nat, ok: bool)
      requires Shape() && off < |bytes|
      modifies this`wbufFill, this`negotiated, this`data, this`pendingErr, this`handled, wbuf, hw`replies
      ensures Shape() && off + len <= |bytes| && (len == 0 && ok ==> wbufFill < old(wbufFill))
      ensures Feed(old(In()), bytes[off..]) == if ok then Feed(In(), bytes[off + len..]) else Verdict(In(), false)
    {
      hide Feed, Handle, AcceptableProbe;
      ghost var i, rest := In(), bytes[off..];
      len, ok := 0, true;
      if wbufFill < 4 {
        len := Min(4 - wbufFill, |bytes| - off);
        assert rest == bytes[off..off + len] + bytes[off + len..];
        FeedChunk(i, bytes[off..off + len], bytes[off + len..]);
        Collect(bytes[off..off + len]);
      } else if !negotiated {
        SettleFirst(i, rest);
        assert i.fill == [wbuf[0], wbuf[1], wbuf[2], wbuf[3]];
        if AcceptableProbe([wbuf[0], wbuf[1], wbuf[2], wbuf[3]]) {
          wbufFill, negotiated := 0, true;
        } else {
          ok := false;
        }
      } else {
        var room := RecordLen(wbuf[2], wbuf[3]) - wbufFill;
        len := Min(room, |bytes| - off);
        ghost var chunk, after := bytes[off..off + len], bytes[off + len..];
        assert rest == chunk + after;
        if room > |bytes| - off {
          FeedChunk(i, chunk, after);
          Collect(bytes[off..off + len]);
        } else {
          FeedCompleting(i, chunk, after);
          Collect(bytes[off..off + len]);
          ghost var rec := wbuf[..wbufFill];
          wbufFill := 0;
          ok := InProcess(rec);
          handled := handled + [rec];
        }
      }
    }

    /** `char_slave_aio_write`: the byte count, or -5 (`-EIO`) when something was rejected. */
    method Write(bytes: seq<Byte>) returns (ret: int)
      requires Valid()
      modifies this`wbufFill, this`negotiated, this`data, this`pendingErr, this`handled, wbuf, hw`replies
      ensures |old(delivered)| <= |Owed(old(View()))|
      ensures Valid() && (View(), Wrote(ret)) == Serve(WriteBytes(bytes), old(View()))
    {
      hide Feed, InputInv, RecordLen, EncodeAll;
      NothingLeft();
      ghost var i0 := In();
      var off, ok := 0, true;
      assert bytes[0..] == bytes;
      while off < |bytes| && ok
        invariant off <= |bytes| && Shape()
        invariant Feed(i0, bytes) == if ok then Feed(In(), bytes[off..]) else Verdict(In(), false)
        decreases ok, |bytes| - off, wbufFill
      {
        var len;
        len, ok := Iterate(bytes, off);
        off := off + len;
      }
      if ok {
        assert bytes[off..] == [];
        FeedNothing(In());
      }
      ret := if ok then |bytes| else -5;
    }

    /** `char_slave_release`: replies to what is still unanswered, as far as `int` counts it. */
    method Release() returns (ret: int)
      requires Valid()
      modifies hw`replies, hw`busy
      ensures !hw.busy && hw.replies == AfterRelease(old(View()))
      ensures ret == if pendingErr == 0 then 0 else -5
    {
      var pending := Signed(pendingErr);
      ghost var n := 0;
      assert hw.replies == hw.replies + Apologies(0);
      while pending > 0
        invariant n >= 0 && (pending >= 0 ==> n + pending == Signed(pendingErr) || Signed(pendingErr) < 0)
        invariant Signed(pendingErr) < 0 ==> n == 0 && pending < 0
        invariant Signed(pendingErr) >= 0 ==> pending >= 0
        invariant hw.replies == old(hw.replies) + Apologies(n)
      {
        hw.Reply(true, 0);
        n, pending := n + 1, pending - 1;
      }
      hw.busy := false;
      ret := if pendingErr != 0 then -5 else 0;
    }
  }
}
