/** Bytes, 32-bit words and their big-endian encoding: the units every component exchanges. */
module Bytes {

  type Byte = b: int | 0 <= b < 0x100
  type Word = w: int | 0 <= w < 0x1_0000_0000

  /** Number of values of an unsigned 32-bit field. */
  const UINT: nat := 0x1_0000_0000

  function Min(a: nat, b: nat): nat {
    if a < b then a else b
  }

  /** `be32_to_cpu` of four bytes. */
  function Join(a: Byte, b: Byte, c: Byte, d: Byte): Word {
    a as int * 0x100_0000 + b as int * 0x1_0000 + c as int * 0x100 + d as int
  }

  /** The word stored at byte offset `at` of `s`. */
  function WordAt(s: seq<Byte>, at: nat): Word
    requires at + 4 <= |s|
  {
    Join(s[at], s[at + 1], s[at + 2], s[at + 3])
  }

  /** The `n` low bytes of `w`, most significant first. */
  function ToBE(w: nat, n: nat): (b: seq<Byte>)
    ensures |b| == n
  {
    if n == 0 then [] else ToBE(w / 0x100, n - 1) + [w % 0x100]
  }

  /** `cpu_to_be32` stored into four bytes. */
  function WordBytes(w: Word): (b: seq<Byte>)
    ensures |b| == 4
  {
    ToBE(w, 4)
  }

  lemma WordBytesAre(w: Word)
    ensures WordBytes(w) == [w / 0x100_0000, (w / 0x1_0000) % 0x100, (w / 0x100) % 0x100, w % 0x100]
  {
    var w1, w2, w3 := w / 0x100, w / 0x1_0000, w / 0x100_0000;
    assert w1 / 0x100 == w2 && w2 / 0x100 == w3 && w3 % 0x100 == w3;
    assert ToBE(w3, 1) == [w3];
    assert ToBE(w2, 2) == [w3, w2 % 0x100];
    assert ToBE(w1, 3) == [w3, w2 % 0x100, w1 % 0x100];
  }

  /** Decoding undoes encoding. */
  lemma DecodeEncode(w: Word)
    ensures WordAt(WordBytes(w), 0) == w
  {
    WordBytesAre(w);
    var w1, w2, w3 := w / 0x100, w / 0x1_0000, w / 0x100_0000;
    assert w2 == w3 * 0x100 + w2 % 0x100;
    assert w1 == w2 * 0x100 + w1 % 0x100;
    assert w == w1 * 0x100 + w % 0x100;
  }

  /** `b & mask` for a one-bit `mask`. */
  predicate Flag(b: Byte, mask: nat)
    requires mask > 0
  {
    (b / mask) % 2 == 1
  }

  function Zeros(n: nat): (z: seq<Byte>)
    ensures |z| == n
  {
    seq(n, _ => 0)
  }

  /** `s` with `b` written over it from position `at` on. */
  function Patch(s: seq<Byte>, at: nat, b: seq<Byte>): (r: seq<Byte>)
    requires at + |b| <= |s|
    ensures |r| == |s|
  {
    seq(|s|, k requires 0 <= k < |s| => if at <= k < at + |b| then b[k - at] else s[k])
  }

  lemma PatchNothing(s: seq<Byte>, at: nat)
    requires at <= |s|
    ensures Patch(s, at, []) == s
  {
  }

  lemma PatchMore(s: seq<Byte>, at: nat, a: seq<Byte>, b: seq<Byte>)
    requires at + |a| + |b| <= |s|
    ensures Patch(Patch(s, at, a), at + |a|, b) == Patch(s, at, a + b)
  {
  }

  lemma PatchSlices(s: seq<Byte>, at: nat, b: seq<Byte>)
    requires at + |b| <= |s|
    ensures Patch(s, at, b) == s[..at] + b + s[at + |b|..]
  {
  }

  lemma ConcatAssociative<T>(a: seq<T>, b: seq<T>, c: seq<T>)
    ensures (a + b) + c == a + (b + c)
  {
  }

  /** `part` stands at position `at` of `s`: its first `n` bytes do. */
  ghost predicate StandsAt(part: seq<Byte>, s: seq<Byte>, at: nat, n: nat)
    requires n <= |part|
  {
    at + n <= |s| && (n == 0 || (part[n - 1] == s[at + n - 1] && StandsAt(part, s, at, n - 1)))
  }

  lemma {:induction false} StandsWhere(part: seq<Byte>, s: seq<Byte>, at: nat, n: nat)
    requires n <= |part| && at + n <= |s| && forall k :: 0 <= k < n ==> part[k] == s[at + k]
    ensures StandsAt(part, s, at, n)
  {
    if n > 0 {
      StandsWhere(part, s, at, n - 1);
    }
  }

  lemma {:induction false} StandsByte(part: seq<Byte>, s: seq<Byte>, at: nat, n: nat, k: nat)
    requires k < n <= |part| && StandsAt(part, s, at, n)
    ensures at + n <= |s| && part[k] == s[at + k]
  {
    if k < n - 1 {
      StandsByte(part, s, at, n - 1, k);
    }
  }

  /** If a string stands somewhere, so do both its halves. */
  lemma StandsSplit(part: seq<Byte>, s: seq<Byte>, at: nat, n: nat)
    requires n <= |part| && StandsAt(part, s, at, |part|)
    ensures StandsAt(part[..n], s, at, n) && StandsAt(part[n..], s, at + n, |part| - n)
  {
    forall k | 0 <= k < |part|
      ensures at + |part| <= |s| && part[k] == s[at + k]
    {
      StandsByte(part, s, at, |part|, k);
    }
    StandsWhere(part[..n], s, at, n);
    forall k | 0 <= k < |part| - n
      ensures part[n..][k] == s[at + n + k]
    {
      assert part[n + k] == s[at + (n + k)];
    }
    StandsWhere(part[n..], s, at + n, |part| - n);
  }

  lemma StandsWord(part: seq<Byte>, s: seq<Byte>, at: nat, k: nat)
    requires k + 4 <= |part| && StandsAt(part, s, at, |part|)
    ensures at + |part| <= |s| && WordAt(part, k) == WordAt(s, at + k)
  {
    StandsByte(part, s, at, |part|, k);
    StandsByte(part, s, at, |part|, k + 1);
    StandsByte(part, s, at, |part|, k + 2);
    StandsByte(part, s, at, |part|, k + 3);
  }

  /** `p` is a multiple of the word size. */
  predicate Aligned(p: nat) {
    if p < 4 then p == 0 else Aligned(p - 4)
  }

  lemma AlignedMod(p: nat)
    ensures Aligned(p) <==> p % 4 == 0
  {
  }

  lemma AlignedSum(p: nat, n: nat)
    requires Aligned(p) && n % 4 == 0
    ensures Aligned(p + n)
  {
    AlignedMod(p);
    AlignedMod(p + n);
  }

  // ---------------------------------------------------------------- masks

  /** `x & m`, bit by bit. */
  function BitAnd(x: nat, m: nat): nat {
    if x == 0 || m == 0 then 0
    else 2 * BitAnd(x / 2, m / 2) + if x % 2 == 1 && m % 2 == 1 then 1 else 0
  }

  function TwoTo(bits: nat): (p: nat)
    ensures p > 0
  {
    if bits == 0 then 1 else 2 * TwoTo(bits - 1)
  }

  /** A mask of low bits takes the remainder. */
  lemma {:induction false} MaskIsModulo(x: nat, bits: nat)
    ensures BitAnd(x, TwoTo(bits) - 1) == x % TwoTo(bits)
    decreases bits
  {
    if bits > 0 {
      var p := TwoTo(bits - 1);
      MaskIsModulo(x / 2, bits - 1);
      OddMask(x, p);
      HalvesModulo(x, p);
    }
  }

  /** Under an odd mask the lowest bit stays. */
  lemma OddMask(x: nat, p: nat)
    requires p > 0
    ensures BitAnd(x, 2 * p - 1) == 2 * BitAnd(x / 2, p - 1) + x % 2
  {
    var m := 2 * p - 1;
    assert m / 2 == p - 1 && m % 2 == 1;
    if x == 0 {
      assert BitAnd(0, p - 1) == 0;
    }
  }

  lemma HalvesModulo(x: nat, p: nat)
    requires p > 0
    ensures x % (2 * p) == 2 * (x / 2 % p) + x % 2
  {
    var h, r := x / 2, x % 2;
    var q, t := h / p, h % p;
    assert h == p * q + t;
    assert x == 2 * p * q + (2 * t + r);
    RemainderOf(x, 2 * p, q, 2 * t + r);
  }

  lemma RemainderOf(x: nat, d: nat, q: int, r: nat)
    requires d > 0 && r < d && x == d * q + r
    ensures x % d == r
  {
    var k := q - x / d;
    assert d * k == x % d - r;
    Stretch(d, k);
  }

  lemma Stretch(d: int, k: int)
    requires d > 0
    ensures k >= 1 ==> d * k >= d
    ensures k <= -1 ==> d * k <= -d
  {
    if k >= 1 {
      assert d * (k - 1) >= 0;
    } else if k <= -1 {
      assert d * (-k - 1) >= 0;
    }
  }
}
