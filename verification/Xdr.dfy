/** External data representation: 32-bit words and opaque bytes in a buffer with a position. */
module Xdr {
  import opened Basics

  type U32 = w: int | 0 <= w < 0x1_0000_0000

  /** The n low bytes of w, highest first. */
  function BigEndian(w: nat, n: nat): (s: seq<Byte>)
    ensures |s| == n
    decreases w, n
  {
    if n == 0 then [] else BigEndian(w / 0x100, n - 1) + [w % 0x100]
  }

  lemma {:induction false} NumberOfBigEndian(w: nat, n: nat)
    requires w < Power(n)
    ensures Number(BigEndian(w, n)) == w
    decreases n
  {
    if n > 0 {
      NumberOfBigEndian(w / 0x100, n - 1);
      var s := BigEndian(w, n);
      assert s[..n - 1] == BigEndian(w / 0x100, n - 1) && s[n - 1] == w % 0x100;
    }
  }

  lemma {:induction false} BigEndianOfNumber(s: seq<Byte>)
    ensures BigEndian(Number(s), |s|) == s
  {
    if s != [] {
      BigEndianOfNumber(s[..|s| - 1]);
    }
  }

  /** Four bytes, highest first. */
  function Word(w: U32): (s: seq<Byte>)
    ensures |s| == 4
  {
    BigEndian(w, 4)
  }

  function Value(s: seq<Byte>): U32
    requires |s| == 4
  {
    FourBytes(s);
    Number(s)
  }

  function Quad(a: int, b: int, c: int, d: int): int {
    ((a * 0x100 + b) * 0x100 + c) * 0x100 + d
  }

  lemma FourBytes(s: seq<Byte>)
    requires |s| == 4
    ensures Number(s) == Quad(s[0], s[1], s[2], s[3]) < 0x1_0000_0000
  {
    assert s[..2][..1] == s[..1] && s[..3][..2] == s[..2];
    assert Number(s[..1]) == s[0];
    assert Number(s[..2]) == s[0] * 0x100 + s[1] as int;
  }

  lemma ValueOfWord(w: U32)
    ensures Value(Word(w)) == w
  {
    assert Power(4) == 0x1_0000_0000;
    NumberOfBigEndian(w, 4);
  }

  /** The first byte is the highest. */
  lemma ValueInBytes(s: seq<Byte>)
    requires |s| == 4
    ensures Value(s) == s[0] as int * 0x100_0000 + s[1] as int * 0x1_0000 + s[2] as int * 0x100 + s[3]
  {
    FourBytes(s);
  }

  lemma WordOfValue(s: seq<Byte>)
    requires |s| == 4
    ensures Word(Value(s)) == s
  {
    BigEndianOfNumber(s);
  }

  /** A length rounded up to a multiple of four. */
  function RoundUp(n: nat): (r: nat)
    ensures n <= r < n + 4 && r % 4 == 0
  {
    (n + 3) / 4 * 4
  }

  function WordAt(s: seq<Byte>, p: nat): U32
    requires p + 4 <= |s|
  {
    Value(s[p..p + 4])
  }

  /** The word in four bytes of an array. */
  method Load(a: array<Byte>, at: nat) returns (w: U32)
    requires at + 4 <= a.Length
    ensures w == WordAt(a[..], at)
  {
    FourBytes(a[at..at + 4]);
    w := Quad(a[at], a[at + 1], a[at + 2], a[at + 3]);
    assert a[..][at..at + 4] == a[at..at + 4];
  }

  /** s with b written over it at p. */
  function Splice(s: seq<Byte>, p: nat, b: seq<Byte>): (r: seq<Byte>)
    requires p + |b| <= |s|
    ensures |r| == |s| && r[..p] == s[..p] && r[p..p + |b|] == b && r[p + |b|..] == s[p + |b|..]
  {
    s[..p] + b + s[p + |b|..]
  }

  lemma SpliceTwice(s: seq<Byte>, p: nat, a: seq<Byte>, b: seq<Byte>)
    requires p + |a| + |b| <= |s|
    ensures Splice(Splice(s, p, a), p + |a|, b) == Splice(s, p, a + b)
  {}

  /** Bytes left as they are. */
  lemma SpliceSame(s: seq<Byte>, p: nat, a: seq<Byte>, k: nat)
    requires p + |a| + k <= |s|
    ensures Splice(s, p, a) == Splice(s, p, a + s[p + |a|..p + |a| + k])
  {}

  /** A buffer that is read or written from `pos` on. XDR_INLINE gives direct access to the next bytes where it can;
      `grants` says whether it is willing to, request by request. */
  class Stream {
    const data: array<Byte>
    var pos: nat
    var grants: seq<bool>

    ghost predicate Valid()
      reads this
    {
      pos <= data.Length
    }

    constructor (data: array<Byte>, grants: seq<bool>)
      ensures Valid() && this.data == data && pos == 0
    {
      this.data, this.pos, this.grants := data, 0, grants;
    }

    /** The start of the next n bytes, which are passed over; or -1. */
    method Inline(n: nat) returns (start: int)
      requires Valid()
      modifies this`pos, this`grants
      ensures Valid()
      ensures start != -1 <==> old(grants) != [] && old(grants)[0] && old(pos) + n <= data.Length
      ensures start == -1 ==> pos == old(pos)
      ensures start != -1 ==> start == old(pos) && pos == old(pos) + n
    {
      var granted := grants != [] && grants[0];
      if grants != [] { grants := grants[1..]; }
      if !granted || data.Length - pos < n { return -1; }
      start := pos;
      pos := pos + n;
    }

    method GetWord() returns (ok: bool, w: U32)
      requires Valid()
      modifies this`pos
      ensures Valid() && ok == (old(pos) + 4 <= data.Length)
      ensures ok ==> pos == old(pos) + 4 && w == WordAt(data[..], old(pos))
    {
      if data.Length - pos < 4 { return false, 0; }
      w := Load(data, pos);
      pos := pos + 4;
      ok := true;
    }

    /** Bytes of a known length, and their padding. */
    method GetOpaque(n: nat) returns (ok: bool, b: seq<Byte>)
      requires Valid()
      modifies this`pos
      ensures Valid() && ok == (old(pos) + RoundUp(n) <= data.Length)
      ensures ok ==> pos == old(pos) + RoundUp(n) && b == data[old(pos)..old(pos) + n]
    {
      if data.Length - pos < RoundUp(n) { return false, []; }
      b := data[pos..pos + n];
      pos := pos + RoundUp(n);
      ok := true;
    }

    /** Write b at `at`, behind what has been written from p on: w so far, over the bytes s. */
    method Store(b: seq<Byte>, at: nat, ghost s: seq<Byte>, ghost p: nat, ghost w: seq<Byte>)
      requires |s| == data.Length && at == p + |w| && at + |b| <= data.Length
      requires data[..] == Splice(s, p, w)
      modifies data
      ensures data[..] == Splice(s, p, w + b)
    {
      SpliceTwice(s, p, w, b);
      ghost var before := data[..];
      forall i | at <= i < at + |b| {
        data[i] := b[i - at];
      }
      assert data[..] == Splice(before, at, b);
    }

    method PutWord(v: U32, ghost s: seq<Byte>, ghost p: nat, ghost w: seq<Byte>) returns (ok: bool)
      requires Valid() && |s| == data.Length && pos == p + |w| && data[..] == Splice(s, p, w)
      modifies this`pos, data
      ensures Valid() && ok == (old(pos) + 4 <= data.Length)
      ensures ok ==> pos == old(pos) + 4 && data[..] == Splice(s, p, w + Word(v))
    {
      if data.Length - pos < 4 { return false; }
      Store(Word(v), pos, s, p, w);
      pos := pos + 4;
      ok := true;
    }

    /** Bytes of a known length, padded with zeros. */
    method PutOpaque(b: seq<Byte>, ghost s: seq<Byte>, ghost p: nat, ghost w: seq<Byte>) returns (ok: bool)
      requires Valid() && |s| == data.Length && pos == p + |w| && data[..] == Splice(s, p, w)
      modifies this`pos, data
      ensures Valid() && ok == (old(pos) + RoundUp(|b|) <= data.Length)
      ensures ok ==> pos == old(pos) + RoundUp(|b|) && data[..] == Splice(s, p, w + b + Zeros(|b|))
    {
      if data.Length - pos < RoundUp(|b|) { return false; }
      Store(b, pos, s, p, w);
      Store(Zeros(|b|), pos + |b|, s, p, w + b);
      pos := pos + RoundUp(|b|);
      ok := true;
    }
  }

  /** The padding behind n bytes. */
  function Zeros(n: nat): (z: seq<Byte>)
    ensures |z| == RoundUp(n) - n && forall i :: 0 <= i < |z| ==> z[i] == 0
  {
    seq(RoundUp(n) - n, _ => 0)
  }
}
