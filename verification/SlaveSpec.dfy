/**
 * What a byte stream written to the slave device file means: negotiation, then records that write
 * the two registers through which requests of the hardware are answered.
 */
module SlaveSpec {
  import opened Bytes
  import opened Records
  import opened Etherbone

  const WBA_DATA: Word := 0x8000
  const WBA_ERR: Word := 0x8004

  datatype Reply = Reply(err: bool, data: Word)

  /** `pending_err`, `data`, and every reply handed to the hardware so far. */
  datatype Regs = Regs(pending: Word, data: Word, replies: seq<Reply>)

  /** State reached, and whether everything was accepted. */
  datatype Verdict<S> = Verdict(st: S, ok: bool)

  /** One word written to the register space. */
  function WriteReg(r: Regs, addr: Word, w: Word): Verdict<Regs> {
    if addr == WBA_DATA then Verdict(r.(data := w), true)
    else if addr == WBA_ERR && r.pending > 0 then
      Verdict(Regs(r.pending - 1, r.data, r.replies + [Reply(w % 2 == 1, r.data)]), true)
    else Verdict(r, false)
  }

  function NextAddr(addr: Word, fifo: bool): Word {
    if fifo then addr else (addr as int + 4) % 0x1_0000_0000
  }

  /** Written words from number `j` on; the first rejected word ends the record. */
  function WriteWords(r: Regs, addr: Word, fifo: bool, rec: seq<Byte>, j: nat): Verdict<Regs>
    requires IsRecord(rec) && j <= rec[2]
    decreases rec[2] as int - j
  {
    if j == rec[2] as int then Verdict(r, true)
    else
      var v := WriteReg(r, addr, WordAt(rec, 8 + 4 * j));
      if !v.ok then v else WriteWords(v.st, NextAddr(addr, fifo), fifo, rec, j + 1)
  }

  /** `etherbone_slave_in_process` on one record. */
  function Handle(r: Regs, rec: seq<Byte>): Verdict<Regs>
    requires IsRecord(rec)
  {
    if rec[3] != 0 then Verdict(r, false)
    else if rec[2] == 0 then Verdict(r, true)
    else if rec[1] != 0xf || !Flag(rec[0], WCA) then Verdict(r, false)
    else WriteWords(r, WordAt(rec, 4), Flag(rec[0], WFF), rec, 0)
  }

  function HandleAll(r: Regs, records: seq<seq<Byte>>): Verdict<Regs>
    requires forall rec :: rec in records ==> IsRecord(rec)
    decreases |records|
  {
    if records == [] then Verdict(r, true)
    else
      var v := Handle(r, records[0]);
      if !v.ok then v else HandleAll(v.st, records[1..])
  }

  // ---------------------------------------------------------------- byte by byte

  /** Input side of an open slave file: collected bytes wait in `fill`; `handled` logs the records handed over. */
  datatype Input = Input(negotiated: bool, fill: seq<Byte>, regs: Regs, handled: seq<seq<Byte>>)

  /** The four bytes a master answers a probe with, as the slave wants them. */
  predicate AcceptableProbe(b: seq<Byte>)
    requires |b| == 4
  {
    b[0] == 0x4E && b[1] == 0x6F && b[2] % 8 == 6 && Flag(b[3], 0x40) && Flag(b[3], 0x04)
  }

  ghost predicate InputInv(i: Input) {
    |i.fill| <= 4 || (i.negotiated && |i.fill| < RecordLen(i.fill[2], i.fill[3]))
  }

  function HandOver(i: Input, rec: seq<Byte>): Verdict<Input>
    requires IsRecord(rec)
  {
    var v := Handle(i.regs, rec);
    Verdict(Input(true, [], v.st, i.handled + [rec]), v.ok)
  }

  /** Disposes of a complete four-byte unit; this happens only when a further byte arrives. */
  function Settle(i: Input): Verdict<Input> {
    if |i.fill| != 4 then Verdict(i, true)
    else if !i.negotiated then
      if AcceptableProbe(i.fill) then Verdict(i.(negotiated := true, fill := []), true) else Verdict(i, false)
    else if IsRecord(i.fill) then HandOver(i, i.fill)
    else Verdict(i, true)
  }

  /** Appends a byte; the last byte of a longer record hands the record over. */
  function Append(i: Input, b: Byte): Verdict<Input> {
    var fill := i.fill + [b];
    if i.negotiated && |fill| > 4 && IsRecord(fill) then HandOver(i, fill)
    else Verdict(i.(fill := fill), true)
  }

  function Take(i: Input, b: Byte): Verdict<Input> {
    var s := Settle(i);
    if s.ok then Append(s.st, b) else s
  }

  /** Bytes one by one; a rejection drops the rest. */
  function Feed(i: Input, bytes: seq<Byte>): Verdict<Input>
    decreases |bytes|
  {
    if bytes == [] then Verdict(i, true)
    else
      var v := Take(i, bytes[0]);
      if v.ok then Feed(v.st, bytes[1..]) else v
  }

  lemma {:induction false} FeedAppend(i: Input, a: seq<Byte>, b: seq<Byte>)
    ensures Feed(i, a + b) == if Feed(i, a).ok then Feed(Feed(i, a).st, b) else Feed(i, a)
    decreases |a|
  {
    hide Take;
    if a == [] {
      assert a + b == b;
    } else {
      assert (a + b)[1..] == a[1..] + b;
      if Take(i, a[0]).ok {
        FeedAppend(Take(i, a[0]).st, a[1..], b);
      }
    }
  }

  /** A pending unit may as well be settled before the first further byte. */
  lemma SettleFirst(i: Input, bytes: seq<Byte>)
    requires bytes != []
    ensures Feed(i, bytes) == if Settle(i).ok then Feed(Settle(i).st, bytes) else Settle(i)
  {
    hide Append, Handle;
    if Settle(i).ok {
      assert Settle(Settle(i).st) == Settle(i);
    }
  }

  /** Bytes that complete neither the header nor the record are only collected. */
  lemma {:induction false} FeedCollects(i: Input, bytes: seq<Byte>)
    requires
      var all := i.fill + bytes;
      |all| <= 4 || (i.negotiated && |all| < RecordLen(all[2], all[3]))
    ensures Feed(i, bytes) == Verdict(i.(fill := i.fill + bytes), true)
    decreases |bytes|
  {
    hide Handle;
    if bytes == [] {
      assert i.fill + [] == i.fill;
    } else {
      var i' := i.(fill := i.fill + [bytes[0]]);
      assert Settle(i) == Verdict(i, true);
      assert Take(i, bytes[0]) == Verdict(i', true);
      assert i'.fill + bytes[1..] == i.fill + bytes;
      FeedCollects(i', bytes[1..]);
    }
  }

  /** Bytes that complete a record longer than its header hand it over. */
  lemma FeedCompletes(i: Input, bytes: seq<Byte>)
    requires i.negotiated && |i.fill| >= 4 && bytes != [] && IsRecord(i.fill + bytes)
    ensures Feed(i, bytes) == HandOver(i, i.fill + bytes)
  {
    var n := |bytes| - 1;
    var front, last := bytes[..n], bytes[n];
    assert bytes == front + [last];
    assert i.fill + bytes == i.fill + front + [last];
    FeedCollects(i, front);
    FeedAppend(i, front, [last]);
    var i' := i.(fill := i.fill + front);
    assert Settle(i') == Verdict(i', true);
    FeedOne(i', last);
  }

  /** Collecting a chunk, then the rest. */
  lemma FeedChunk(i: Input, chunk: seq<Byte>, rest: seq<Byte>)
    requires
      var all := i.fill + chunk;
      |all| <= 4 || (i.negotiated && |all| < RecordLen(all[2], all[3]))
    ensures Feed(i, chunk + rest) == Feed(i.(fill := i.fill + chunk), rest)
  {
    hide Feed;
    FeedCollects(i, chunk);
    FeedAppend(i, chunk, rest);
  }

  /** Completing a record with a chunk (or with nothing, for a bare header), then the rest. */
  lemma FeedCompleting(i: Input, chunk: seq<Byte>, rest: seq<Byte>)
    requires i.negotiated && |i.fill| >= 4 && chunk + rest != [] && IsRecord(i.fill + chunk)
    requires chunk == [] ==> |i.fill| == 4
    ensures
      var v := HandOver(i, i.fill + chunk);
      Feed(i, chunk + rest) == if v.ok then Feed(v.st, rest) else v
  {
    hide Feed, Handle;
    if chunk == [] {
      assert i.fill + [] == i.fill && [] + rest == rest;
      SettleFirst(i, rest);
    } else {
      FeedCompletes(i, chunk);
      FeedAppend(i, chunk, rest);
    }
  }

  lemma FeedOne(i: Input, b: Byte)
    ensures Feed(i, [b]) == Take(i, b)
  {
  }

  // ---------------------------------------------------------------- record by record

  lemma {:induction false} DivideGivesRecords(s: seq<Byte>)
    ensures forall rec :: rec in Divide(s).records ==> IsRecord(rec)
    decreases |s|
  {
    if Complete(s) {
      DivideGivesRecords(s[|First(s)|..]);
    }
  }

  /** What stays collected once `s` is consumed: its tail, or a last record that is only a header. */
  ghost function Leftover(s: seq<Byte>): seq<Byte> {
    var d := Divide(s);
    if d.rest == [] && d.records != [] && |d.records[|d.records| - 1]| == 4
    then d.records[|d.records| - 1] else d.rest
  }

  /** The records handed over by the time `s` is consumed. */
  ghost function HandedOver(s: seq<Byte>): seq<seq<Byte>> {
    var d := Divide(s);
    if d.rest == [] && d.records != [] && |d.records[|d.records| - 1]| == 4
    then d.records[..|d.records| - 1] else d.records
  }

  /** A record that is only a header changes nothing. */
  lemma HeaderOnly(r: Regs, rec: seq<Byte>)
    requires IsRecord(rec) && |rec| == 4
    ensures Handle(r, rec) == Verdict(r, true)
  {
  }

  /**
   * Reassembly: once negotiated, feeding a byte string has exactly the effect of dividing it into
   * records and handling them in order up to the first rejected one, however it was chunked; those are
   * the records handed over, except that a last one that is only a header waits.
   */
  lemma {:induction false} Reassembly(i: Input, s: seq<Byte>)
    requires i.negotiated && i.fill == []
    ensures forall rec :: rec in Divide(s).records ==> IsRecord(rec)
    ensures
      var v, h := Feed(i, s), HandleAll(i.regs, Divide(s).records);
      && v.ok == h.ok && v.st.regs == h.st && v.st.handled <= i.handled + Divide(s).records
      && (v.ok ==> v.st.negotiated && v.st.fill == Leftover(s) && v.st.handled == i.handled + HandedOver(s))
    decreases |s|
  {
    hide Handle, Take;
    DivideGivesRecords(s);
    if !Complete(s) {
      FeedCollects(i, s);
      assert [] + s == s;
    } else {
      var rec := First(s);
      var s' := s[|rec|..];
      assert s == rec + s';
      FeedRecord(i, rec, s');
      var v := HandOver(i, rec);
      assert Divide(s).records == [rec] + Divide(s').records;
      assert Divide(s).records[1..] == Divide(s').records;
      if s' == [] {
        assert Divide(s') == Division([], []);
        assert Divide(s).records == [rec];
        if |rec| == 4 { HeaderOnly(i.regs, rec); }
        assert i.handled + [rec][..0] == i.handled;
      } else if v.ok {
        Reassembly(v.st, s');
        LeftoverTail(rec, s');
        ConcatAssociative(i.handled, [rec], Divide(s').records);
        ConcatAssociative(i.handled, [rec], HandedOver(s'));
      } else {
        ConcatAssociative(i.handled, [rec], Divide(s').records);
      }
    }
  }

  lemma LeftoverTail(rec: seq<Byte>, s: seq<Byte>)
    requires IsRecord(rec) && s != []
    ensures Leftover(rec + s) == Leftover(s) && HandedOver(rec + s) == [rec] + HandedOver(s)
  {
    hide Divide;
    DivideCons(rec, s);
    if Divide(s).records == [] {
      DivideNothing(s);
    } else {
      var d := Divide(s).records;
      assert ([rec] + d)[|d|] == d[|d| - 1] && ([rec] + d)[..|d|] == [rec] + d[..|d| - 1];
    }
  }

  lemma DivideNothing(s: seq<Byte>)
    requires Divide(s).records == []
    ensures Divide(s).rest == s
  {
  }

  /** A whole record, then `s`: the record is handled at the latest when `s` begins. */
  lemma FeedRecord(i: Input, rec: seq<Byte>, s: seq<Byte>)
    requires i.negotiated && i.fill == [] && IsRecord(rec)
    ensures
      var v := HandOver(i, rec);
      Feed(i, rec + s)
      == if s == [] && |rec| == 4 then Verdict(i.(fill := rec), true)
         else if v.ok then Feed(v.st, s) else v
  {
    hide Handle, Take, Feed;
    var header := rec[..4];
    FeedCollects(i, header);
    assert [] + header == header;
    var i' := i.(fill := header);
    if |rec| == 4 {
      assert header == rec;
      FeedAppend(i, rec, s);
      if s == [] {
        FeedNothing(i');
      } else {
        SettleFirst(i', s);
      }
    } else {
      assert rec == header + rec[4..];
      FeedAppend(i, header, rec[4..]);
      FeedCompletes(i', rec[4..]);
      FeedAppend(i, rec, s);
    }
  }

  lemma FeedNothing(i: Input)
    ensures Feed(i, []) == Verdict(i, true)
  {
  }

  /** Negotiation: the first four bytes are judged as soon as a fifth arrives, and cost nothing else. */
  lemma Negotiation(i: Input, probe: seq<Byte>, s: seq<Byte>)
    requires !i.negotiated && i.fill == [] && |probe| == 4
    ensures
      Feed(i, probe + s)
      == if s == [] then Verdict(i.(fill := probe), true)
         else if AcceptableProbe(probe) then Feed(i.(negotiated := true), s)
         else Verdict(i.(fill := probe), false)
  {
    hide Take, Feed, AcceptableProbe;
    FeedCollects(i, probe);
    assert [] + probe == probe;
    FeedAppend(i, probe, s);
    if s == [] {
      FeedNothing(i.(fill := probe));
    } else {
      SettleFirst(i.(fill := probe), s);
      assert i.(fill := probe).(negotiated := true, fill := []) == i.(negotiated := true);
    }
  }

  function Concat(records: seq<seq<Byte>>): seq<Byte>
    decreases |records|
  {
    if records == [] then [] else records[0] + Concat(records[1..])
  }

  lemma {:induction false} ConcatNext(records: seq<seq<Byte>>, rec: seq<Byte>)
    ensures Concat(records + [rec]) == Concat(records) + rec
    decreases |records|
  {
    if records == [] {
      assert ([] + [rec])[1..] == [];
      assert rec + [] == rec && [] + rec == rec;
    } else {
      ConcatNext(records[1..], rec);
      assert (records + [rec])[1..] == records[1..] + [rec];
      ConcatAssociative(records[0], Concat(records[1..]), rec);
    }
  }

  /**
   * `written` is everything a user wrote, none of it rejected: the probe answer, then exactly the
   * records handed over, in order, then what is still collected.
   */
  ghost predicate Accounted(i: Input, written: seq<Byte>) {
    && (forall rec :: rec in i.handled ==> IsRecord(rec))
    && InputInv(i)
    && if !i.negotiated then i.handled == [] && written == i.fill
       else |written| >= 4 && AcceptableProbe(written[..4]) && written[4..] == Concat(i.handled) + i.fill
  }

  /** Between calls: a probe answer or bare header is disposed of only when a further byte arrives. */
  ghost predicate Framed(i: Input, written: seq<Byte>) {
    && Accounted(i, written)
    && (i.negotiated && i.fill == [] ==> i.handled != [] && |i.handled[|i.handled| - 1]| > 4)
  }

  lemma SettleAccounts(i: Input, written: seq<Byte>)
    requires Accounted(i, written) && Settle(i).ok
    ensures Accounted(Settle(i).st, written)
  {
    hide Handle, AcceptableProbe, RecordLen;
    if |i.fill| == 4 && !i.negotiated {
      assert written[..4] == i.fill && written[4..] == [];
    } else if |i.fill| == 4 && IsRecord(i.fill) {
      HandOverAccounts(i, i.fill, written);
    }
  }

  lemma HandOverAccounts(i: Input, rec: seq<Byte>, written: seq<Byte>)
    requires IsRecord(rec) && |written| >= 4 && AcceptableProbe(written[..4])
    requires (forall r :: r in i.handled ==> IsRecord(r)) && written[4..] == Concat(i.handled) + rec
    ensures Accounted(HandOver(i, rec).st, written)
  {
    hide Handle, AcceptableProbe, RecordLen, Concat;
    ConcatNext(i.handled, rec);
    var log := i.handled + [rec];
    assert Concat(log) + [] == Concat(log);
  }

  lemma TakeFrames(i: Input, written: seq<Byte>, b: Byte)
    requires Framed(i, written) && Take(i, b).ok
    ensures Framed(Take(i, b).st, written + [b])
  {
    hide Handle, AcceptableProbe, Settle, Concat;
    SettleAccounts(i, written);
    var s := Settle(i).st;
    Settled(i);
    var w := written + [b];
    if s.negotiated {
      assert w[..4] == written[..4];
      assert w[4..] == written[4..] + [b];
      assert Concat(s.handled) + s.fill + [b] == Concat(s.handled) + (s.fill + [b]);
      if |s.fill| >= 4 && IsRecord(s.fill + [b]) {
        HandOverAccounts(s, s.fill + [b], w);
      }
    }
  }

  /** After settling, a four-byte unit is the header of a longer record. */
  lemma Settled(i: Input)
    requires InputInv(i) && Settle(i).ok
    ensures
      var s := Settle(i).st;
      |s.fill| < 4 || (s.negotiated && |s.fill| < RecordLen(s.fill[2], s.fill[3]))
  {
  }

  /** Accepted input is accounted for byte by byte, whatever the chunks and whatever happens in between. */
  lemma {:induction false} FeedFrames(i: Input, written: seq<Byte>, bytes: seq<Byte>)
    requires Framed(i, written) && Feed(i, bytes).ok
    ensures Framed(Feed(i, bytes).st, written + bytes)
    decreases |bytes|
  {
    hide Framed, Take;
    if bytes == [] {
      assert written + [] == written;
    } else {
      TakeFrames(i, written, bytes[0]);
      FeedFrames(Take(i, bytes[0]).st, written + [bytes[0]], bytes[1..]);
      assert written + [bytes[0]] + bytes[1..] == written + bytes;
    }
  }

  /** Of two ways to begin a byte string with records, one continues the other. */
  lemma {:induction false} OneContinues(a: seq<seq<Byte>>, b: seq<seq<Byte>>, x: seq<Byte>, y: seq<Byte>)
    requires (forall rec :: rec in a ==> IsRecord(rec)) && (forall rec :: rec in b ==> IsRecord(rec))
    requires Concat(a) + x == Concat(b) + y && |a| <= |b|
    ensures a == b[..|a|] && x == Concat(b[|a|..]) + y
  {
    if a == [] {
      assert [] + x == x && b[0..] == b;
    } else {
      var rest1, rest2 := Concat(a[1..]) + x, Concat(b[1..]) + y;
      ConcatAssociative(a[0], Concat(a[1..]), x);
      ConcatAssociative(b[0], Concat(b[1..]), y);
      FirstOfConcat(a[0], rest1);
      FirstOfConcat(b[0], rest2);
      hide Concat, IsRecord, First;
      OneContinues(a[1..], b[1..], x, y);
      assert a == [a[0]] + a[1..];
      assert b[..|a|] == [b[0]] + b[1..][..|a| - 1];
      assert b[1..][|a| - 1..] == b[|a|..];
    }
  }

  /** What is collected holds no further record once records were handed over as late as they are. */
  lemma NoneLeft(i: Input, j: Input, b: seq<seq<Byte>>)
    requires InputInv(i) && i.negotiated && b != [] && forall rec :: rec in b ==> IsRecord(rec)
    requires i.fill == Concat(b) + j.fill
    ensures |b| == 1 && |b[0]| == 4 && j.fill == []
  {
    var rest := Concat(b[1..]) + j.fill;
    ConcatAssociative(b[0], Concat(b[1..]), j.fill);
    FirstOfConcat(b[0], rest);
    assert IsRecord(b[0]) && |i.fill| >= |b[0]| >= 4;
    assert i.fill[2] == b[0][2] && i.fill[3] == b[0][3];
    assert |i.fill| == 4;
    assert |b| > 1 ==> IsRecord(b[1]);
  }

  lemma SameFraming(i: Input, j: Input, written: seq<Byte>)
    requires Framed(i, written) && Framed(j, written) && i.negotiated && j.negotiated
    requires |i.handled| <= |j.handled|
    ensures i.fill == j.fill && i.handled == j.handled
  {
    hide AcceptableProbe, InputInv, Concat, RecordLen;
    OneContinues(i.handled, j.handled, i.fill, j.fill);
    var n := |i.handled|;
    var more := j.handled[n..];
    if more != [] {
      assert forall rec :: rec in more ==> rec in j.handled;
      assert more[|more| - 1] == j.handled[|j.handled| - 1];
      NoneLeft(i, j, more);
    } else {
      ConcatOfNone(more, j.fill);
    }
  }

  lemma ConcatOfNone(records: seq<seq<Byte>>, s: seq<Byte>)
    requires records == []
    ensures Concat(records) + s == s
  {
  }

  /**
   * The accepted bytes alone determine what was handed over and what is still collected: two inputs
   * framed on the same bytes agree, however these were chunked and whatever the registers held.
   */
  lemma FramedUnique(i: Input, j: Input, written: seq<Byte>)
    requires Framed(i, written) && Framed(j, written)
    ensures i.negotiated == j.negotiated && i.fill == j.fill && i.handled == j.handled
  {
    NegotiatedAfterFour(i, written);
    NegotiatedAfterFour(j, written);
    if i.negotiated {
      hide Framed;
      if |i.handled| <= |j.handled| {
        SameFraming(i, j, written);
      } else {
        SameFraming(j, i, written);
      }
    }
  }

  lemma NegotiatedAfterFour(i: Input, written: seq<Byte>)
    requires Framed(i, written)
    ensures i.negotiated <==> |written| > 4
  {
    hide AcceptableProbe, RecordLen;
    if i.negotiated && i.fill == [] {
      assert IsRecord(i.handled[|i.handled| - 1]);
      assert i.handled[0] in i.handled;
    }
  }

  /** Negotiation is never undone. */
  lemma {:induction false} FeedStaysNegotiated(i: Input, bytes: seq<Byte>)
    ensures i.negotiated ==> Feed(i, bytes).st.negotiated
    decreases |bytes|
  {
    if bytes != [] {
      FeedStaysNegotiated(Take(i, bytes[0]).st, bytes[1..]);
    }
  }

  // ---------------------------------------------------------------- which records are accepted

  /** Every reply handed out uses up one pending request, also when the record is then rejected. */
  lemma {:induction false} WordsConserve(r: Regs, addr: Word, fifo: bool, rec: seq<Byte>, j: nat)
    requires IsRecord(rec) && j <= rec[2]
    ensures
      var r' := WriteWords(r, addr, fifo, rec, j).st;
      r'.pending as int + |r'.replies| == r.pending as int + |r.replies| && r.replies <= r'.replies
    decreases rec[2] as int - j
  {
    if j < rec[2] as int {
      var v := WriteReg(r, addr, WordAt(rec, 8 + 4 * j));
      if v.ok { WordsConserve(v.st, NextAddr(addr, fifo), fifo, rec, j + 1); }
    }
  }

  lemma {:induction false} FeedConserves(i: Input, bytes: seq<Byte>)
    ensures
      var i' := Feed(i, bytes).st;
      && i'.regs.pending as int + |i'.regs.replies| == i.regs.pending as int + |i.regs.replies|
      && i.regs.replies <= i'.regs.replies
    decreases |bytes|
  {
    hide WriteWords;
    if bytes != [] {
      TakeConserves(i, bytes[0]);
      if Take(i, bytes[0]).ok { FeedConserves(Take(i, bytes[0]).st, bytes[1..]); }
    }
  }

  lemma TakeConserves(i: Input, b: Byte)
    ensures
      var i' := Take(i, b).st;
      && i'.regs.pending as int + |i'.regs.replies| == i.regs.pending as int + |i.regs.replies|
      && i.regs.replies <= i'.regs.replies
  {
    hide WriteWords;
    if |i.fill| == 4 && IsRecord(i.fill) { HandleConserves(i.regs, i.fill); }
    var s := Settle(i).st;
    if IsRecord(s.fill + [b]) { HandleConserves(s.regs, s.fill + [b]); }
  }

  lemma HandleConserves(r: Regs, rec: seq<Byte>)
    requires IsRecord(rec)
    ensures
      var r' := Handle(r, rec).st;
      r'.pending as int + |r'.replies| == r.pending as int + |r.replies| && r.replies <= r'.replies
  {
    if rec[3] == 0 && rec[2] > 0 { WordsConserve(r, WordAt(rec, 4), Flag(rec[0], WFF), rec, 0); }
  }

  /** The write part of a record stays within the two registers and the pending requests. */
  predicate Acceptable(pending: Word, base: Word, fifo: bool, count: nat) {
    if fifo then base == WBA_DATA || (base == WBA_ERR && count <= pending as int)
    else if base == WBA_DATA then count <= 2 && (count == 2 ==> pending > 0)
    else base == WBA_ERR && count == 1 && pending > 0
  }

  lemma {:induction false} WordsAccepted(r: Regs, addr: Word, fifo: bool, rec: seq<Byte>, j: nat)
    requires IsRecord(rec) && j < rec[2] as int
    ensures WriteWords(r, addr, fifo, rec, j).ok <==> Acceptable(r.pending, addr, fifo, rec[2] as int - j)
    decreases rec[2] as int - j
  {
    var v := WriteReg(r, addr, WordAt(rec, 8 + 4 * j));
    if v.ok && j + 1 < rec[2] as int {
      WordsAccepted(v.st, NextAddr(addr, fifo), fifo, rec, j + 1);
    }
  }

  /**
   * A record is accepted exactly when it reads nothing, and either writes nothing or is a full-width
   * write to the configuration space that stays within the registers and the pending requests.
   */
  lemma AcceptedExactly(r: Regs, rec: seq<Byte>)
    requires IsRecord(rec)
    ensures
      Handle(r, rec).ok <==>
      && rec[3] == 0
      && (rec[2] > 0 ==> rec[1] == 0xf && Flag(rec[0], WCA)
                         && Acceptable(r.pending, WordAt(rec, 4), Flag(rec[0], WFF), rec[2] as int))
  {
    hide Flag, WriteWords;
    if rec[3] == 0 && rec[2] > 0 {
      WordsAccepted(r, WordAt(rec, 4), Flag(rec[0], WFF), rec, 0);
    }
  }
}
