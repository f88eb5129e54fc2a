/**
 * What a user of a slave device file and the hardware behind it get, in plain numbers: what reads, polls and
 * writes return, which answers are accepted and what they tell the hardware, and what release tells it.
 */
module SlaveMeaning {
  import opened Bytes
  import opened Records
  import opened Etherbone
  import opened RecordMeaning
  import opened SlaveSpec
  import opened SlaveFile
  import opened SlaveSession

  // ---------------------------------------------------------------- release

  lemma {:induction false} ApologiesAre(n: int, k: nat)
    requires k < n
    ensures Apologies(n)[k].err && Apologies(n)[k].data == 0
    decreases n
  {
    if k < n - 1 {
      ApologiesAre(n - 1, k);
    }
  }

  /**
   * After any script, release tells the hardware an error without data for every request it still answers: as many as
   * the count of outstanding ones modulo 2^32 says, or none if that is 2^31 or more.
   */
  lemma ReleaseReplies(script: seq<Call>, garbage: Word)
    ensures
      var f := Play(script, Start(garbage)).0;
      var before, after := f.input.regs.replies, AfterRelease(f);
      var outstanding := (|f.taken| - |before|) % 0x1_0000_0000;
      && before <= after
      && |after| == |before| + (if outstanding < 0x8000_0000 then outstanding else 0)
      && forall k :: |before| <= k < |after| ==> after[k].err && after[k].data == 0
  {
    hide Start, EncodeAll, AfterRelease;
    Released(Play(script, Start(garbage)).0);
  }

  lemma Released(f: File)
    requires Sound(f)
    ensures
      var before, after := f.input.regs.replies, AfterRelease(f);
      var outstanding := (|f.taken| - |before|) % 0x1_0000_0000;
      && before <= after
      && |after| == |before| + (if outstanding < 0x8000_0000 then outstanding else 0)
      && forall k :: |before| <= k < |after| ==> after[k].err && after[k].data == 0
  {
    assert f.input.regs.pending == (|f.taken| - |f.input.regs.replies|) % 0x1_0000_0000;
    hide Sound, EncodeAll;
    var before, after, n := f.input.regs.replies, AfterRelease(f), Signed(f.input.regs.pending);
    hide Apologies;
    forall k | |before| <= k < |after|
      ensures after[k].err && after[k].data == 0
    {
      ApologiesAre(n, k - |before|);
      assert after[k] == Apologies(n)[k - |before|];
    }
  }

  /** With fewer than 2^31 outstanding that is one error without data for each of them. */
  lemma ReleaseRepliesToAll(script: seq<Call>, garbage: Word)
    requires
      var f := Play(script, Start(garbage)).0;
      |f.taken| - |f.input.regs.replies| < 0x8000_0000
    ensures
      var f := Play(script, Start(garbage)).0;
      var outstanding: nat := |f.taken| - |f.input.regs.replies|;
      AfterRelease(f) == f.input.regs.replies + seq(outstanding, _ => SlaveSpec.Reply(true, 0))
  {
    ReleaseReplies(script, garbage);
    var f := Play(script, Start(garbage)).0;
    hide Play, Start, AfterRelease, EncodeAll;
    OnlyErrors(f.input.regs.replies, AfterRelease(f), |f.taken| - |f.input.regs.replies|);
  }

  lemma OnlyErrors(before: seq<SlaveSpec.Reply>, after: seq<SlaveSpec.Reply>, outstanding: nat)
    requires before <= after && outstanding < 0x8000_0000 && |after| == |before| + outstanding % 0x1_0000_0000
    requires forall k :: |before| <= k < |after| ==> after[k].err && after[k].data == 0
    ensures after == before + seq(outstanding, _ => SlaveSpec.Reply(true, 0))
  {
    forall k | |before| <= k < |after|
      ensures after[k] == SlaveSpec.Reply(true, 0)
    {
    }
    assert after[..|before|] == before;
    assert after[|before|..] == seq(outstanding, _ => SlaveSpec.Reply(true, 0));
  }

  // ---------------------------------------------------------------- reads and polls

  /** A request is taken exactly when everything before it was read, the probe is answered, and one waits. */
  lemma TakenExactly(f: File)
    requires Sound(f)
    ensures
      var t := TakeNext(f);
      if |f.given| == 8 + 24 * |f.taken| && f.input.negotiated && f.queue != [] then
        && t.taken == f.taken + [f.queue[0]] && t.queue == f.queue[1..] && t.given == f.given
        && t.input == f.input.(regs := t.input.regs) && t.input.regs.replies == f.input.regs.replies
        && t.input.regs.data == f.input.regs.data
        && t.input.regs.pending == (|t.taken| - |t.input.regs.replies|) % 0x1_0000_0000
      else t == f
  {
    hide EncodeAll;
    TakeKeepsSound(f);
    assert |f.given| == |Owed(f)| ==> f.given == Owed(f);
  }

  /**
   * A read returns the next bytes of what is owed, as many as there is room for, or all that is owed for the requests
   * taken so far; one without room does nothing, any other takes a request if it is time. A poll says yes exactly if a
   * read of one byte in its place would return one.
   */
  lemma ReadsAndPolls(f: File, room: nat)
    requires Sound(f)
    ensures
      var (g, o) := Serve(ReadUpTo(room), f);
      && o.Got? && |o.bytes| <= room && g.given == f.given + o.bytes
      && (|o.bytes| < room ==> |g.given| == 8 + 24 * |g.taken|)
      && g == (if room == 0 then f else TakeNext(f).(given := g.given))
    ensures Serve(Poll, f).1 == Readable(|Serve(ReadUpTo(1), f).1.bytes| == 1)
    ensures room > 0 ==> Serve(Poll, f).1 == Readable(Serve(ReadUpTo(room), f).1.bytes != [])
    ensures Serve(Poll, f).0 == TakeNext(f)
  {
    hide EncodeAll;
    TakeKeepsSound(f);
    assert f.given + [] == f.given;
  }

  /** Whatever the script, the first bytes read are the probe. */
  lemma ProbeComesFirst(script: seq<Call>, garbage: Word)
    ensures
      var got := GotBy(Play(script, Start(garbage)).1);
      got <= [0x4E, 0x6F, 0x11, 0x44, 0, 0, 0, 0] || [0x4E, 0x6F, 0x11, 0x44, 0, 0, 0, 0] <= got
  {
    ReadsAddUp(script, Start(garbage));
    var (f, os) := Play(script, Start(garbage));
    hide Play, EncodeAll;
    assert [] + GotBy(os) == GotBy(os);
    PrefixOfJoin(f.given, PROBE, EncodeAll(f.taken));
  }

  lemma PrefixOfJoin(s: seq<Byte>, a: seq<Byte>, b: seq<Byte>)
    requires s <= a + b
    ensures s <= a || a <= s
  {
    if |s| <= |a| {
      assert s == (a + b)[..|s|] == a[..|s|];
    } else {
      assert s[..|a|] == (a + b)[..|a|] == a;
    }
  }

  /**
   * A request as it is read: one record that writes or reads its address on the other side under its byte lanes, with
   * the data register as return address, and one that asks for the error flags and ends the cycle.
   */
  lemma RequestEncoded(q: Request)
    ensures
      var b := Encode(q);
      && b[0] == 0x80 && b[1] == q.mask
      && (q.write ==> b[2] == 1 && b[3] == 0 && WordAt(b, 4) == q.addr && WordAt(b, 8) == q.data)
      && (!q.write ==> b[2] == 0 && b[3] == 1 && WordAt(b, 4) == 0x8000 && WordAt(b, 8) == q.addr)
      && b[12..] == [0xC8, 0x0F, 0, 1, 0, 0, 0x80, 0x04, 0, 0, 0, 4]
  {
    DecodeEncode(q.addr);
    DecodeEncode(q.data);
    var b, rec := Encode(q), RequestRecord(q);
    assert forall k :: 0 <= k < 12 ==> b[k] == rec[k];
    hide Encode, WordBytes;
    WordsOf(if q.write then [0x80, q.mask, 1, 0] else [0x80, q.mask, 0, 1],
            if q.write then WordBytes(q.addr) else [0, 0, 0x80, 0],
            if q.write then WordBytes(q.data) else WordBytes(q.addr), b);
    assert WordAt([0, 0, 0x80, 0], 0) == 0x8000;
  }

  lemma WordsOf(head: seq<Byte>, a: seq<Byte>, d: seq<Byte>, b: seq<Byte>)
    requires |head| == |a| == |d| == 4 && |b| >= 12
    requires forall k :: 0 <= k < 12 ==> b[k] == (head + a + d)[k]
    ensures WordAt(b, 4) == WordAt(a, 0) && WordAt(b, 8) == WordAt(d, 0)
  {
  }

  /** The requests stand one behind the other, 24 bytes each, behind the probe. */
  lemma {:induction false} RequestAt(qs: seq<Request>, k: nat)
    requires k < |qs|
    ensures EncodeAll(qs)[24 * k..24 * k + 24] == Encode(qs[k])
    decreases |qs|
  {
    hide Encode;
    var front := qs[..|qs| - 1];
    if k < |qs| - 1 {
      RequestAt(front, k);
      assert EncodeAll(qs)[24 * k..24 * k + 24] == EncodeAll(front)[24 * k..24 * k + 24];
    }
  }

  // ---------------------------------------------------------------- writes

  /**
   * A write returns the number of bytes offered, or -EIO. It fails exactly if the bytes make the file pass judgement
   * on a probe answer or a record and reject it.
   */
  lemma WritesReturn(f: File, bytes: seq<Byte>)
    requires |f.given| <= |Owed(f)|
    ensures
      var (g, o) := Serve(WriteBytes(bytes), f);
      && g == f.(input := Feed(f.input, bytes).st)
      && (o == Wrote(|bytes|) <==> Feed(f.input, bytes).ok) && (o == Wrote(-5) <==> !Feed(f.input, bytes).ok)
  {
    hide Feed, EncodeAll;
  }

  /** A probe answer counts as one if it begins with 4E 6F, has version response bits 6, and 32-bit widths both ways. */
  lemma ProbeAccepted(b: seq<Byte>)
    requires |b| == 4
    ensures
      AcceptableProbe(b)
      <==> b[0] == 0x4E && b[1] == 0x6F && BitAnd(b[2], 0x7) == 0x6 && BitAnd(b[3], 0x44) == 0x44
  {
    assert TwoTo(1) == 2 && TwoTo(2) == 4 && TwoTo(3) == 8;
    MaskIsModulo(b[2], 3);
    BothWidths(b[3]);
  }

  lemma BothWidths(b: Byte)
    ensures BitAnd(b, 0x44) == 0x44 <==> Flag(b, 0x40) && Flag(b, 0x04)
  {
    var h, q, e := b / 2, b / 4, b / 8;
    assert BitAnd(b, 0x44) == 2 * BitAnd(h, 0x22);
    assert h / 2 == q && BitAnd(h, 0x22) == 2 * BitAnd(q, 0x11);
    assert q / 2 == e && BitAnd(q, 0x11) == 2 * BitAnd(e, 0x08) + q % 2;
    EighthBit(e);
    assert e / 8 == b / 0x40;
    hide BitAnd;
  }

  lemma EighthBit(e: nat)
    ensures BitAnd(e, 0x08) == if e / 8 % 2 == 1 then 8 else 0
  {
    var h, q, x := e / 2, e / 4, e / 8;
    assert BitAnd(e, 8) == 2 * BitAnd(h, 4);
    assert h / 2 == q && BitAnd(h, 4) == 2 * BitAnd(q, 2);
    assert q / 2 == x && BitAnd(q, 2) == 2 * BitAnd(x, 1);
    assert BitAnd(x / 2, 0) == 0;
    assert BitAnd(x, 1) == x % 2;
  }

  // ---------------------------------------------------------------- what an accepted record tells the hardware

  /**
   * A record is accepted exactly if it reads nothing and either writes nothing or is a full-width write with bit 0x04,
   * to the data register at 0x8000 and the error register at 0x8004, that needs no more replies than are outstanding:
   * with bit 0x02 any number of words to one of them, otherwise one word to either or one to each.
   */
  lemma RecordAccepted(r: Regs, rec: seq<Byte>)
    requires IsRecord(rec)
    ensures
      var n := rec[2] as int;
      Handle(r, rec).ok
      <==> rec[3] == 0
           && (n > 0 ==> rec[1] == 0xF && BitAnd(rec[0], 0x04) != 0 && |rec| >= 8
                         && var base := WordAt(rec, 4);
                         if BitAnd(rec[0], 0x02) != 0 then base == 0x8000 || (base == 0x8004 && n <= r.pending as int)
                         else (base == 0x8000 && n == 1) || (base == 0x8000 && n == 2 && r.pending > 0)
                              || (base == 0x8004 && n == 1 && r.pending > 0))
  {
    FlagsAre(rec[0]);
    AcceptedExactly(r, rec);
    hide BitAnd, Handle, Flag, WordAt;
  }

  /** A reply uses up one outstanding request and carries the lowest bit of its word and the data register. */
  lemma WordReplies(r: Regs, w: Word)
    requires r.pending > 0
    ensures
      var v := WriteReg(r, 0x8004, w);
      v.ok && v.st == Regs(r.pending - 1, r.data, r.replies + [SlaveSpec.Reply(BitAnd(w, 1) == 1, r.data)])
  {
    assert BitAnd(w / 2, 0) == 0;
    if w > 0 {
      assert BitAnd(w, 1) == 2 * BitAnd(w / 2, 0) + w % 2;
    }
  }

  /** Words to the data register one after the other: the last one stays. */
  lemma {:induction false} DataWords(r: Regs, rec: seq<Byte>, j: nat)
    requires IsRecord(rec) && j < rec[2]
    ensures
      var last := 4 + 4 * rec[2] as int;
      last + 4 <= |rec| && WriteWords(r, 0x8000, true, rec, j) == Verdict(r.(data := WordAt(rec, last)), true)
    decreases rec[2] as int - j
  {
    hide WordAt;
    var r' := r.(data := WordAt(rec, 8 + 4 * j));
    if j + 1 < rec[2] as int {
      DataWords(r', rec, j + 1);
    } else {
      assert WriteWords(r', 0x8000, true, rec, j + 1) == Verdict(r', true);
    }
  }

  /** Words to the error register one after the other: each gives a reply. */
  lemma {:induction false} ErrorWords(r: Regs, rec: seq<Byte>, j: nat, k: nat)
    requires IsRecord(rec) && j <= k < rec[2] && rec[2] as int - j <= r.pending as int
    ensures
      var n, v := rec[2] as int - j, WriteWords(r, 0x8004, true, rec, j);
      && 8 + 4 * k + 4 <= |rec|
      && v.ok && v.st.data == r.data && v.st.pending as int == r.pending as int - n
      && |v.st.replies| == |r.replies| + n && r.replies <= v.st.replies
      && v.st.replies[|r.replies| + k - j] == SlaveSpec.Reply(BitAnd(WordAt(rec, 8 + 4 * k), 1) == 1, r.data)
    decreases rec[2] as int - j
  {
    hide WordAt, BitAnd, WriteReg, RecordLen, WriteWords;
    DataWithin(rec, j);
    DataWithin(rec, k);
    var w := WordAt(rec, 8 + 4 * j);
    WordReplies(r, w);
    var r' := WriteReg(r, 0x8004, w).st;
    NextErrorWord(r, rec, j);
    if j + 1 < rec[2] as int {
      ErrorWords(r', rec, j + 1, if k == j then j + 1 else k);
    } else {
      NoMoreWords(r', rec);
    }
  }

  lemma NextErrorWord(r: Regs, rec: seq<Byte>, j: nat)
    requires IsRecord(rec) && j < rec[2] && 8 + 4 * j + 4 <= |rec| && r.pending > 0
    ensures
      var v := WriteReg(r, 0x8004, WordAt(rec, 8 + 4 * j));
      v.ok && WriteWords(r, 0x8004, true, rec, j) == WriteWords(v.st, 0x8004, true, rec, j + 1)
  {
    hide WordAt, RecordLen;
  }

  lemma NoMoreWords(r: Regs, rec: seq<Byte>)
    requires IsRecord(rec)
    ensures WriteWords(r, 0x8004, true, rec, rec[2] as int) == Verdict(r, true)
  {
    hide RecordLen;
  }

  /**
   * What an accepted record with data does. With bit 0x02: at 0x8000 the last word becomes the data register, at 0x8004
   * word `k` is reply `k`, with the data register as it was. Without it: the first word at 0x8000 becomes the data
   * register, a second one is a reply with that data; a word at 0x8004 is a reply.
   */
  lemma RecordTells(r: Regs, rec: seq<Byte>, k: nat)
    requires IsRecord(rec) && Handle(r, rec).ok && k < rec[2]
    ensures
      var n, r' := rec[2] as int, Handle(r, rec).st;
      && 8 + 4 * n <= |rec|
      && var base, first := WordAt(rec, 4), WordAt(rec, 8);
      if BitAnd(rec[0], 0x02) != 0 && base == 0x8000 then r' == r.(data := WordAt(rec, 4 + 4 * n))
      else if BitAnd(rec[0], 0x02) != 0 then
        && r'.data == r.data && r'.pending as int == r.pending as int - n && |r'.replies| == |r.replies| + n
        && r.replies <= r'.replies
        && r'.replies[|r.replies| + k] == SlaveSpec.Reply(BitAnd(WordAt(rec, 8 + 4 * k), 1) == 1, r.data)
      else if base == 0x8000 && n == 1 then r' == r.(data := first)
      else if base == 0x8000 then
        && r.pending > 0 && n == 2
        && r' == Regs(r.pending - 1, first, r.replies + [SlaveSpec.Reply(BitAnd(WordAt(rec, 12), 1) == 1, first)])
      else
        && r.pending > 0 && n == 1
        && r' == Regs(r.pending - 1, r.data, r.replies + [SlaveSpec.Reply(BitAnd(first, 1) == 1, r.data)])
  {
    RecordAccepted(r, rec);
    DataWithin(rec, rec[2] as int - 1);
    FlagsAre(rec[0]);
    var base, fifo := WordAt(rec, 4), Flag(rec[0], WFF);
    if fifo {
      if base == 0x8000 {
        DataWords(r, rec, 0);
      } else {
        ErrorWords(r, rec, 0, k);
      }
    } else if base == 0x8000 && rec[2] == 1 {
      OneDataWord(r, rec);
    } else {
      PlainWords(r, rec, base);
      WordReplies(r, WordAt(rec, 8));
      if base == 0x8000 {
        WordReplies(r.(data := WordAt(rec, 8)), WordAt(rec, 12));
      }
    }
    hide WordAt, BitAnd, Flag, WriteWords, RecordLen;
  }

  lemma PlainWords(r: Regs, rec: seq<Byte>, base: Word)
    requires IsRecord(rec) && 8 + 4 * rec[2] as int <= |rec| && r.pending > 0
    ensures
      base == 0x8004 && rec[2] == 1 ==>
        WriteWords(r, base, false, rec, 0) == WriteReg(r, 0x8004, WordAt(rec, 8))
    ensures
      base == 0x8000 && rec[2] == 2 ==>
        WriteWords(r, base, false, rec, 0) == WriteReg(r.(data := WordAt(rec, 8)), 0x8004, WordAt(rec, 12))
  {
    if base == 0x8004 && rec[2] == 1 {
      LastWord(r, rec, 0);
    } else if base == 0x8000 && rec[2] == 2 {
      LastWord(r.(data := WordAt(rec, 8)), rec, 1);
    }
    hide WordAt, RecordLen;
  }

  lemma LastWord(r: Regs, rec: seq<Byte>, j: nat)
    requires IsRecord(rec) && j + 1 == rec[2] as int && 8 + 4 * j + 4 <= |rec| && r.pending > 0
    ensures WriteWords(r, 0x8004, false, rec, j) == WriteReg(r, 0x8004, WordAt(rec, 8 + 4 * j))
  {
    hide WordAt, RecordLen;
    var v := WriteReg(r, 0x8004, WordAt(rec, 8 + 4 * j));
    assert WriteWords(v.st, NextAddr(0x8004, false), false, rec, j + 1) == Verdict(v.st, true);
  }

  lemma OneDataWord(r: Regs, rec: seq<Byte>)
    requires IsRecord(rec) && rec[2] == 1 && |rec| >= 12
    ensures WriteWords(r, 0x8000, false, rec, 0) == Verdict(r.(data := WordAt(rec, 8)), true)
  {
    hide WordAt, RecordLen;
    var v := r.(data := WordAt(rec, 8));
    assert WriteWords(v, NextAddr(0x8000, false), false, rec, 1) == Verdict(v, true);
  }
}
