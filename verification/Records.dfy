/**
 * Etherbone record framing: how a byte stream falls into records, and how a machine that consumes
 * whole records behaves when its input arrives in pieces.
 */
module Records {
  import opened Bytes

  /** Length in bytes of a record with the given counts. */
  function RecordLen(wcount: Byte, rcount: Byte): (n: nat)
    ensures 4 <= n <= 2052 && n % 4 == 0
  {
    4 * (1 + wcount as int + rcount as int + (if wcount > 0 then 1 else 0) + (if rcount > 0 then 1 else 0))
  }

  /** `s` starts with a whole record. */
  predicate Complete(s: seq<Byte>) {
    |s| >= 4 && |s| >= RecordLen(s[2], s[3])
  }

  /** `s` is exactly one record. */
  predicate IsRecord(s: seq<Byte>) {
    |s| >= 4 && |s| == RecordLen(s[2], s[3])
  }

  /** The first record of `s`. */
  function First(s: seq<Byte>): (rec: seq<Byte>)
    requires Complete(s)
    ensures IsRecord(rec) && |rec| <= |s|
  {
    s[..RecordLen(s[2], s[3])]
  }

  lemma FirstOfConcat(rec: seq<Byte>, s: seq<Byte>)
    requires IsRecord(rec)
    ensures Complete(rec + s) && First(rec + s) == rec && (rec + s)[|rec|..] == s
  {
    assert (rec + s)[..|rec|] == rec;
  }

  // ---------------------------------------------------------------- machines over records

  /** Consumes one record in a state: output bytes and next state. */
  type Machine<!S> = (seq<Byte>, S) -> (seq<Byte>, S)

  /** Bytes consumed, bytes produced, state reached. */
  datatype Folded<S> = Folded(used: nat, out: seq<Byte>, st: S)

  /** Feeds every whole record of `s` to the machine; an unfinished tail is left alone. */
  function Fold<S>(step: Machine<S>, s: seq<Byte>, st: S): (f: Folded<S>)
    ensures f.used <= |s|
    decreases |s|
  {
    if !Complete(s) then Folded(0, [], st)
    else
      var rec := First(s);
      var (out, st') := step(rec, st);
      var rest := Fold(step, s[|rec|..], st');
      Folded(|rec| + rest.used, out + rest.out, rest.st)
  }

  function Then<S>(a: Folded<S>, b: Folded<S>): Folded<S> {
    Folded(a.used + b.used, a.out + b.out, b.st)
  }

  lemma ThenAssociative<S>(a: Folded<S>, b: Folded<S>, c: Folded<S>)
    ensures Then(Then(a, b), c) == Then(a, Then(b, c))
  {
    assert (a.out + b.out) + c.out == a.out + (b.out + c.out);
  }

  lemma FoldCons<S>(step: Machine<S>, rec: seq<Byte>, s: seq<Byte>, st: S)
    requires IsRecord(rec)
    ensures
      var (out, st') := step(rec, st);
      Fold(step, rec + s, st) == Then(Folded(|rec|, out, st'), Fold(step, s, st'))
  {
    FirstOfConcat(rec, s);
  }

  /** Folding `a + b` is folding `a`, then folding what `a` left over followed by `b`. */
  lemma {:induction false} FoldAppend<S>(step: Machine<S>, a: seq<Byte>, b: seq<Byte>, st: S)
    ensures
      var f := Fold(step, a, st);
      Fold(step, a + b, st) == Then(f, Fold(step, a[f.used..] + b, f.st))
    decreases |a|
  {
    if !Complete(a) {
      assert a[0..] + b == a + b;
    } else {
      var rec := First(a);
      var a' := a[|rec|..];
      var (out, st') := step(rec, st);
      assert a + b == rec + (a' + b);
      FoldCons(step, rec, a' + b, st);
      FoldAppend(step, a', b, st');
      var f' := Fold(step, a', st');
      assert a'[f'.used..] == a[|rec| + f'.used..];
      ThenAssociative(Folded(|rec|, out, st'), f', Fold(step, a'[f'.used..] + b, f'.st));
    }
  }

  /** A fold stops only in front of a record that is not whole yet. */
  lemma {:induction false} FoldStops<S>(step: Machine<S>, s: seq<Byte>, st: S)
    ensures !Complete(s[Fold(step, s, st).used..])
    decreases |s|
  {
    if !Complete(s) {
      assert s[0..] == s;
    } else {
      var rec := First(s);
      var s' := s[|rec|..];
      var (_, st') := step(rec, st);
      FoldStops(step, s', st');
      var f := Fold(step, s', st');
      assert s'[f.used..] == s[|rec| + f.used..];
    }
  }

  /** Folding `s` amounts to `out` and state `st` so far, with `todo` still to fold. */
  ghost predicate FoldsTo<S>(step: Machine<S>, s: seq<Byte>, st0: S, out: seq<Byte>, st: S, todo: seq<Byte>) {
    Fold(step, s, st0) == Then(Folded(|out|, out, st), Fold(step, todo, st))
  }

  lemma FoldsStart<S>(step: Machine<S>, s: seq<Byte>, st: S)
    ensures FoldsTo(step, s, st, [], st, s)
  {
    var f := Fold(step, s, st);
    assert [] + f.out == f.out;
  }

  /** One more record. */
  lemma FoldsOn<S>(step: Machine<S>, s: seq<Byte>, st0: S, out: seq<Byte>, st: S, todo: seq<Byte>)
    requires FoldsTo(step, s, st0, out, st, todo) && Complete(todo)
    requires |step(First(todo), st).0| == |First(todo)|
    ensures
      var (reply, st') := step(First(todo), st);
      FoldsTo(step, s, st0, out + reply, st', todo[|First(todo)|..])
  {
    var rec := First(todo);
    var (reply, st') := step(rec, st);
    ThenAssociative(Folded(|out|, out, st), Folded(|rec|, reply, st'), Fold(step, todo[|rec|..], st'));
  }

  /** Nothing more to do. */
  lemma FoldsEnd<S>(step: Machine<S>, s: seq<Byte>, st0: S, out: seq<Byte>, st: S, todo: seq<Byte>)
    requires FoldsTo(step, s, st0, out, st, todo) && !Complete(todo)
    ensures Fold(step, s, st0) == Folded(|out|, out, st)
  {
    assert out + [] == out;
  }

  /** The machine answers every record with as many bytes as it has. */
  ghost predicate LengthPreserving<S(!new)>(step: Machine<S>) {
    forall rec, st :: IsRecord(rec) ==> |step(rec, st).0| == |rec|
  }

  lemma {:induction false} FoldLength<S(!new)>(step: Machine<S>, s: seq<Byte>, st: S)
    requires LengthPreserving(step)
    ensures var f := Fold(step, s, st); |f.out| == f.used && f.used % 4 == 0
    decreases |s|
  {
    if Complete(s) {
      var rec := First(s);
      FoldLength(step, s[|rec|..], step(rec, st).1);
    }
  }

  // ---------------------------------------------------------------- division into records

  /** Greedy division of a byte string into records; `rest` is the unfinished tail. */
  datatype Division = Division(records: seq<seq<Byte>>, rest: seq<Byte>)

  function Divide(s: seq<Byte>): Division
    decreases |s|
  {
    if !Complete(s) then Division([], s)
    else
      var d := Divide(s[|First(s)|..]);
      Division([First(s)] + d.records, d.rest)
  }

  const EMPTY: seq<Byte> := [0, 0, 0, 0]

  lemma DivideCons(rec: seq<Byte>, s: seq<Byte>)
    requires IsRecord(rec)
    ensures Divide(rec + s) == Division([rec] + Divide(s).records, Divide(s).rest)
  {
    FirstOfConcat(rec, s);
  }

  lemma PaddingSplit(n: nat, s: seq<Byte>)
    requires n > 0
    ensures Zeros(4 * n) + s == EMPTY + (Zeros(4 * (n - 1)) + s)
  {
  }

  lemma PaddingRecords(n: nat, records: seq<seq<Byte>>)
    requires n > 0
    ensures [EMPTY] + (seq(n - 1, _ => EMPTY) + records) == seq(n, _ => EMPTY) + records
  {
  }

  lemma {:induction false} DividePadding(n: nat, s: seq<Byte>)
    ensures Divide(Zeros(4 * n) + s) == Division(seq(n, _ => EMPTY) + Divide(s).records, Divide(s).rest)
  {
    hide Divide, Zeros;
    if n == 0 {
      assert Zeros(0) + s == s;
      assert seq(0, _ => EMPTY) + Divide(s).records == Divide(s).records;
    } else {
      PaddingSplit(n, s);
      DivideCons(EMPTY, Zeros(4 * (n - 1)) + s);
      DividePadding(n - 1, s);
      PaddingRecords(n, Divide(s).records);
    }
  }

  lemma DividePadded(n: nat, rec: seq<Byte>)
    requires IsRecord(rec)
    ensures Divide(Zeros(4 * n) + rec) == Division(seq(n, _ => EMPTY) + [rec], [])
  {
    DivideCons(rec, []);
    assert rec + [] == rec;
    assert [rec] + [] == [rec];
    DividePadding(n, rec);
  }
}
