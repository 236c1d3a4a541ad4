/** Substring search: libcompat/memmem.c.

    `Words` holds the combinatorics of words the search relies on: suffix orders, periods and
    the critical factorization theorem.  `Memmem` holds the search itself. */
module Words {
  import opened Basics

  /** x[a..a+n) and x[b..b+n) are the same word. */
  ghost predicate Same(x: seq<Byte>, a: nat, b: nat, n: nat)
    requires a + n <= |x| && b + n <= |x|
  {
    forall i, j :: a <= i < a + n && j == i + b - a ==> x[i] == x[j]
  }

  /** The two alphabet orders: the byte order, and the opposite one. */
  predicate Below(a: Byte, b: Byte, opposite: bool) {
    if opposite then b < a else a < b
  }

  /** The suffix at c and the suffix at a first differ after e bytes, and c's byte is the lower one. */
  ghost predicate LowerAt(x: seq<Byte>, c: nat, a: nat, e: nat, opposite: bool) {
    && c + e < |x| && a + e < |x|
    && Same(x, c, a, e)
    && Below(x[c + e], x[a + e], opposite)
  }

  ghost predicate Lower(x: seq<Byte>, c: nat, a: nat, opposite: bool) {
    exists e: nat :: LowerAt(x, c, a, e, opposite)
  }

  /** Lexicographic order on the suffixes of x, a proper prefix being the smaller word. */
  ghost predicate AtMost(x: seq<Byte>, c: nat, a: nat, opposite: bool) {
    Lower(x, c, a, opposite) || (a <= c <= |x| && Same(x, c, a, |x| - c))
  }

  ghost predicate MaximalSuffix(x: seq<Byte>, a: nat, opposite: bool) {
    a <= |x| && forall c: nat :: c < |x| ==> AtMost(x, c, a, opposite)
  }

  /** p is a period of the suffix of x that starts at a. */
  ghost predicate Period(x: seq<Byte>, a: nat, p: nat) {
    p >= 1 && a <= |x| && forall i, j :: a <= i < j < |x| && j == i + p ==> x[i] == x[j]
  }

  ghost predicate SmallestPeriod(x: seq<Byte>, a: nat, p: nat) {
    Period(x, a, p) && forall q: nat :: Period(x, a, q) ==> p <= q
  }

  /** A repetition of length r centred at position c, cut off at both ends of x. */
  ghost predicate LocalRepetition(x: seq<Byte>, c: nat, r: nat) {
    && r >= 1 && c <= |x|
    && forall i, j :: 0 <= i < c <= j < |x| && j == i + r ==> x[i] == x[j]
  }

  /** c is critical: whatever repeats around c repeats throughout x, and is longer than the part before c. */
  ghost predicate Critical(x: seq<Byte>, c: nat) {
    c <= |x| && forall r: nat :: LocalRepetition(x, c, r) ==> Period(x, 0, r) && c < r
  }

  lemma SameTransitive(x: seq<Byte>, a: nat, b: nat, c: nat, m: nat)
    requires a + m <= |x| && b + m <= |x| && c + m <= |x|
    requires Same(x, a, b, m) && Same(x, b, c, m)
    ensures Same(x, a, c, m)
  {
    forall i, j | a <= i < a + m && j == i + c - a ensures x[i] == x[j] {
      assert x[i] == x[i + b - a] && x[i + b - a] == x[j];
    }
  }

  lemma SamePrefix(x: seq<Byte>, a: nat, b: nat, m: nat, k: nat)
    requires a + m <= |x| && b + m <= |x| && Same(x, a, b, m) && k <= m
    ensures Same(x, a, b, k)
    ensures k < m ==> x[a + k] == x[b + k]
  {}

  lemma LowerTransitive(x: seq<Byte>, a: nat, b: nat, c: nat, opposite: bool)
    requires Lower(x, a, b, opposite) && Lower(x, b, c, opposite)
    ensures Lower(x, a, c, opposite)
  {
    var e: nat :| LowerAt(x, a, b, e, opposite);
    var f: nat :| LowerAt(x, b, c, f, opposite);
    if e < f {
      SamePrefix(x, b, c, f, e);
      SameTransitive(x, a, b, c, e);
      assert LowerAt(x, a, c, e, opposite);
    } else {
      SamePrefix(x, a, b, e, f);
      SameTransitive(x, a, b, c, f);
      assert LowerAt(x, a, c, f, opposite);
    }
  }

  lemma LowerIsStrict(x: seq<Byte>, c: nat, a: nat, opposite: bool)
    requires Lower(x, c, a, opposite)
    ensures !AtMost(x, a, c, opposite) && !AtMost(x, c, a, !opposite)
  {}

  lemma AtMostInBothOrders(x: seq<Byte>, c: nat, a: nat, opposite: bool)
    requires AtMost(x, c, a, opposite) && AtMost(x, c, a, !opposite)
    ensures a <= c <= |x| && Same(x, c, a, |x| - c)
  {}

  /** If the suffix at c - r is lower than the one at c, and repeats its first r bytes, then the same
      difference makes the suffix at c lower than the one at c + r. */
  lemma DropRepetition(x: seq<Byte>, c: nat, r: nat, opposite: bool)
    requires r <= c && LocalRepetition(x, c, r) && AtMost(x, c - r, c, opposite)
    ensures Lower(x, c, c + r, opposite)
  {
    var e: nat :| LowerAt(x, c - r, c, e, opposite);
    assert r <= e;
    assert LowerAt(x, c, c + r, e - r, opposite) by {
      forall i, j | c <= i < c + (e - r) && j == i + r ensures x[i] == x[j] {}
    }
  }

  /** No repetition fits in front of the start of a maximal suffix. */
  lemma RepetitionExceedsPrefix(x: seq<Byte>, c: nat, r: nat, opposite: bool)
    requires c < |x| && MaximalSuffix(x, c, opposite) && LocalRepetition(x, c, r)
    ensures c < r
  {
    if r <= c {
      DropRepetition(x, c, r, opposite);
      LowerIsStrict(x, c, c + r, opposite);
    }
  }

  /** The bytes between c' and c repeat too, so the comparison at c' continues as one at c. */
  lemma DropCommonPart(x: seq<Byte>, c: nat, c': nat, r: nat, opposite: bool)
    requires c' <= c && c < r && c + r < |x|
    requires LocalRepetition(x, c, r) && AtMost(x, c' + r, c', opposite)
    ensures AtMost(x, c + r, c, opposite)
  {
    if Lower(x, c' + r, c', opposite) {
      var f: nat :| LowerAt(x, c' + r, c', f, opposite);
      assert c - c' <= f;
      assert LowerAt(x, c + r, c, f - (c - c'), opposite);
    }
  }

  /** The critical factorization theorem: the later of the two maximal suffixes starts at a critical position. */
  lemma CriticalFactorization(x: seq<Byte>, c: nat, c': nat, opposite: bool)
    requires c' <= c < |x|
    requires MaximalSuffix(x, c, opposite) && MaximalSuffix(x, c', !opposite)
    ensures Critical(x, c)
  {
    forall r: nat | LocalRepetition(x, c, r)
      ensures Period(x, 0, r) && c < r
    {
      RepetitionExceedsPrefix(x, c, r, opposite);
      if c + r < |x| {
        DropCommonPart(x, c, c', r, !opposite);
        AtMostInBothOrders(x, c + r, c, opposite);
      }
    }
  }

  /** If x has any period no longer than its suffix at the critical position c, then the smallest period
      of that suffix is a period of x. */
  lemma {:induction false} SuffixPeriodIsGlobal(x: seq<Byte>, c: nat, p: nat, q: nat)
    requires c < |x| && Critical(x, c) && SmallestPeriod(x, c, p)
    requires Period(x, 0, q) && q <= |x| - c
    ensures Period(x, 0, p)
    decreases q
  {
    assert Period(x, c, q);
    if p < q {
      forall i, j | 0 <= i < c <= j < |x| && j == i + (q - p)
        ensures x[i] == x[j]
      {
        var k := i + q;
        assert k < |x| by { assert i < c; }
        assert x[i] == x[k] && x[j] == x[k];
      }
      assert LocalRepetition(x, c, q - p);
      SuffixPeriodIsGlobal(x, c, p, q - p);
    }
  }
}

/** One pass over the needle that finds its maximal suffix, and the period of that suffix. */
module SuffixScan {
  import opened Basics
  import opened Words

  /** The remainder of x after taking away p as often as it fits. */
  function Residue(x: nat, p: nat): (r: nat)
    requires p >= 1
    ensures r < p && r <= x
  {
    if x < p then x else Residue(x - p, p)
  }

  lemma ResidueGap(x: nat, y: nat, p: nat)
    requires p >= 1 && x < y && Residue(y, p) == 0
    ensures x - Residue(x, p) + p <= y
    decreases x
  {}

  lemma ResidueDifference(x: nat, y: nat, p: nat)
    requires p >= 1 && x <= y && Residue(x, p) == 0 && Residue(y, p) == 0
    ensures Residue(y - x, p) == 0
    decreases x
  {
    if x >= p {
      ResidueDifference(x - p, y - p, p);
    }
  }

  lemma ResidueSum(y: nat, p: nat)
    requires p >= 1 && Residue(y, p) == 0
    ensures Residue(y + p, p) == 0
  {}

  /** n[a..end) is above each of its own proper suffixes, by an actual difference. */
  ghost predicate AboveItsSuffixes(n: seq<Byte>, a: nat, end: nat, opposite: bool) {
    end <= |n| && forall c: nat :: a < c < end ==> LowerBefore(n, c, a, end, opposite)
  }

  /** The suffix at c falls below the suffix at a before its bytes reach position `end`. */
  ghost predicate LowerBefore(n: seq<Byte>, c: nat, a: nat, end: nat, opposite: bool) {
    exists e: nat :: c + e < end && LowerAt(n, c, a, e, opposite)
  }

  lemma SameWordSameOrder(n: seq<Byte>, c: nat, c': nat, m: nat, a: nat, e: nat, opposite: bool)
    requires c + m <= |n| && c' + m <= |n| && Same(n, c, c', m)
    requires e < m && LowerAt(n, c', a, e, opposite)
    ensures LowerAt(n, c, a, e, opposite)
  {
    forall i, j | c <= i < c + e && j == i + a - c ensures n[i] == n[j] {
      assert n[i] == n[i + c' - c] && n[i + c' - c] == n[j];
    }
    assert n[c + e] == n[c' + e];
  }

  /** What the pass knows: n[a..b) is a power of n[a..a+p), which is above its own suffixes; t more bytes
      continue the repetition; every suffix that starts before a is below the suffix at a. */
  ghost predicate Scanned(n: seq<Byte>, a: nat, b: nat, t: nat, p: nat, opposite: bool) {
    && 1 <= p <= b - a && t < p && b + t <= |n|
    && Residue(b - a, p) == 0
    && Same(n, a, a + p, b + t - a - p)
    && AboveItsSuffixes(n, a, a + p, opposite)
    && forall c: nat :: c < a ==> Lower(n, c, a, opposite)
  }

  lemma {:induction false} Repeats(n: seq<Byte>, a: nat, b: nat, t: nat, p: nat, c: nat)
    requires 1 <= p <= b - a && b + t <= |n| && Same(n, a, a + p, b + t - a - p)
    requires a <= c <= b && Residue(c - a, p) == 0
    ensures Same(n, c, a, b + t - c)
    decreases c
  {
    if a < c {
      Repeats(n, a, b, t, p, c - p);
      assert Same(n, c, c - p, b + t - c);
      SameTransitive(n, c, c - p, a, b + t - c);
    }
  }

  lemma {:induction false} FallsBelow(n: seq<Byte>, a: nat, b: nat, p: nat, c: nat, opposite: bool) returns (e: nat)
    requires 1 <= p <= b - a && b <= |n| && Same(n, a, a + p, b - a - p)
    requires AboveItsSuffixes(n, a, a + p, opposite)
    requires a < c < b && Residue(b - a, p) == 0 && Residue(c - a, p) != 0
    ensures c + e < b && e + Residue(c - a, p) < p && LowerAt(n, c, a, e, opposite)
    decreases c
  {
    if c - a < p {
      assert LowerBefore(n, c, a, a + p, opposite);
      e :| c + e < a + p && LowerAt(n, c, a, e, opposite);
    } else {
      e := FallsBelow(n, a, b, p, c - p, opposite);
      ResidueGap(c - a, b - a, p);
      assert Same(n, c, c - p, b - c);
      SameWordSameOrder(n, c, c - p, b - c, a, e, opposite);
    }
  }

  /** A suffix that starts d bytes into the unfinished repetition of the word compares like the one that starts
      d bytes into the word, as far as it has been read. */
  lemma InsideTail(n: seq<Byte>, a: nat, b: nat, t: nat, p: nat, d: nat, opposite: bool)
    requires Scanned(n, a, b, t, p, opposite) && 0 < d < t
    ensures LowerBefore(n, b + d, a, b + t, opposite) || TailTie(n, a, b, t, d, opposite)
  {
    Repeats(n, a, b, t, p, b);
    assert LowerBefore(n, a + d, a, a + p, opposite);
    var e: nat :| LowerAt(n, a + d, a, e, opposite);
    TailLikeWord(n, a, b, t, d, e, opposite);
  }

  lemma TailLikeWord(n: seq<Byte>, a: nat, b: nat, t: nat, d: nat, e: nat, opposite: bool)
    requires a <= b && b + t <= |n| && a + t < |n| && d <= t
    requires Same(n, b, a, t) && LowerAt(n, a + d, a, e, opposite)
    ensures LowerBefore(n, b + d, a, b + t, opposite) || TailTie(n, a, b, t, d, opposite)
  {
    assert Same(n, b + d, a + d, t - d);
    if d + e < t {
      SameWordSameOrder(n, b + d, a + d, t - d, a, e, opposite);
    } else {
      TiedByte(n, a, d, t, e, opposite);
      SameTransitive(n, b + d, a + d, a, t - d);
    }
  }

  lemma TiedByte(n: seq<Byte>, a: nat, d: nat, t: nat, e: nat, opposite: bool)
    requires d <= t <= d + e && LowerAt(n, a + d, a, e, opposite)
    ensures Same(n, a + d, a, t - d) && !Below(n[a + (t - d)], n[a + t], opposite)
  {}

  /** The suffix at b + d agrees with the one at a as far as it has been read; the word's own next byte is
      no higher there. */
  ghost predicate TailTie(n: seq<Byte>, a: nat, b: nat, t: nat, d: nat, opposite: bool)
    requires d <= t && a <= b && b + t <= |n| && a + t < |n|
  {
    Same(n, b + d, a, t - d) && !Below(n[a + (t - d)], n[a + t], opposite)
  }

  /** A suffix inside the scanned part falls below the suffix at a, or agrees with it as far as it has been
      read, where the byte to come is no lower than n[a + t]. */
  lemma InsideScan(n: seq<Byte>, a: nat, b: nat, t: nat, p: nat, c: nat, opposite: bool)
    requires Scanned(n, a, b, t, p, opposite) && a < c < b + t
    ensures LowerBefore(n, c, a, b + t, opposite)
         || (Same(n, c, a, b + t - c) && !Below(n[a + (b + t - c)], n[a + t], opposite))
  {
    if b < c {
      InsideTail(n, a, b, t, p, c - b, opposite);
    } else if Residue(c - a, p) == 0 {
      Repeats(n, a, b, t, p, c);
      ResidueDifference(c - a, b - a, p);
      Repeats(n, a, b, t, p, a + (b - c));
      if c < b {
        assert n[a + (b - c) + t] == n[a + t];
      }
    } else {
      var e := FallsBelow(n, a, b, p, c, opposite);
    }
  }

  /** The next byte is the one the repetition asks for. */
  lemma EqualByte(n: seq<Byte>, a: nat, b: nat, t: nat, p: nat, opposite: bool)
    requires Scanned(n, a, b, t, p, opposite) && b + t < |n| && n[b + t] == n[a + t]
    ensures if t + 1 == p then Scanned(n, a, b + p, 0, p, opposite) else Scanned(n, a, b, t + 1, p, opposite)
    ensures p <= b - a && t < p && (t + 1 == p ==> b + p <= |n|)
  {
    Repeats(n, a, b, t, p, b - p);
    assert n[b - p + t] == n[a + t];
    assert Same(n, a, a + p, b + t + 1 - a - p);
    ResidueSum(b - a, p);
  }

  /** The next byte is lower than the repetition asks for: everything scanned so far becomes the new word. */
  lemma LowerByte(n: seq<Byte>, a: nat, b: nat, t: nat, p: nat, opposite: bool)
    requires Scanned(n, a, b, t, p, opposite) && b + t < |n| && Below(n[b + t], n[a + t], opposite)
    ensures Scanned(n, a, b + t + 1, 0, b + t + 1 - a, opposite)
  {
    Repeats(n, a, b, t, p, b);
    var end := b + t + 1;
    forall c: nat | a < c < end
      ensures LowerBefore(n, c, a, end, opposite)
    {
      if c == b + t {
        LastByteLower(n, a, b, t, p, opposite);
        assert LowerAt(n, c, a, 0, opposite);
      } else {
        InsideScan(n, a, b, t, p, c, opposite);
        if LowerBefore(n, c, a, b + t, opposite) {
          var e: nat :| c + e < b + t && LowerAt(n, c, a, e, opposite);
        } else {
          assert LowerAt(n, c, a, b + t - c, opposite);
        }
      }
    }
  }

  lemma LastByteLower(n: seq<Byte>, a: nat, b: nat, t: nat, p: nat, opposite: bool)
    requires Scanned(n, a, b, t, p, opposite) && b + t < |n| && Below(n[b + t], n[a + t], opposite)
    ensures Below(n[b + t], n[a], opposite)
  {
    if t > 0 {
      assert LowerBefore(n, a + t, a, a + p, opposite);
      var e: nat :| LowerAt(n, a + t, a, e, opposite);
      assert !Below(n[a], n[a + t], opposite);
    }
  }

  /** The next byte is higher than the repetition asks for: every suffix seen so far is below the one at b. */
  lemma HigherByte(n: seq<Byte>, a: nat, b: nat, t: nat, p: nat, opposite: bool)
    requires Scanned(n, a, b, t, p, opposite) && b + t < |n| && Below(n[a + t], n[b + t], opposite)
    ensures Scanned(n, b, b + 1, 0, 1, opposite)
  {
    Repeats(n, a, b, t, p, b);
    assert LowerAt(n, a, b, t, opposite);
    forall c: nat | c < b
      ensures Lower(n, c, b, opposite)
    {
      if c < a {
        LowerTransitive(n, c, a, b, opposite);
      } else if a < c {
        if Residue(c - a, p) == 0 {
          Repeats(n, a, b, t, p, c);
          assert LowerAt(n, c, b, t, opposite) by {
            forall i, j | c <= i < c + t && j == i + b - c ensures n[i] == n[j] {
              assert n[i] == n[i + a - c] && n[j] == n[i + a - c];
            }
            assert n[c + t] == n[a + t];
          }
        } else {
          var e := FallsBelow(n, a, b, p, c, opposite);
          LowerTransitive(n, c, a, b, opposite);
        }
      }
    }
  }

  lemma NoShorterPeriod(n: seq<Byte>, a: nat, p: nat, q: nat, opposite: bool)
    requires AboveItsSuffixes(n, a, a + p, opposite) && 0 < q < p
    ensures !Period(n, a, q)
  {
    assert LowerBefore(n, a + q, a, a + p, opposite);
    var e: nat :| a + q + e < a + p && LowerAt(n, a + q, a, e, opposite);
    assert n[a + q + e] != n[a + e];
  }

  lemma ScanComplete(n: seq<Byte>, a: nat, b: nat, t: nat, p: nat, opposite: bool)
    requires Scanned(n, a, b, t, p, opposite) && b + t == |n|
    ensures MaximalSuffix(n, a, opposite) && SmallestPeriod(n, a, p) && a + p <= |n|
  {
    forall c: nat | c < |n|
      ensures AtMost(n, c, a, opposite)
    {
      if a < c {
        InsideScan(n, a, b, t, p, c, opposite);
      }
    }
    forall q: nat | Period(n, a, q)
      ensures p <= q
    {
      if q < p {
        NoShorterPeriod(n, a, p, q, opposite);
      }
    }
  }

  /** The pass's variables describe a scan: a = ip + 1, b = jp + 1 and t = k - 1. */
  ghost predicate State(n: seq<Byte>, ip: int, jp: int, k: int, p: int, opposite: bool)
    ensures State(n, ip, jp, k, p, opposite) ==> -1 <= ip < jp && 1 <= k <= p && jp + k <= |n|
  {
    && -1 <= ip <= jp && 1 <= k && 1 <= p
    && Scanned(n, ip + 1, jp + 1, k - 1, p, opposite)
  }

  lemma Starts(n: seq<Byte>, opposite: bool)
    requires |n| > 0
    ensures State(n, -1, 0, 1, 1, opposite)
  {}

  lemma Steps(n: seq<Byte>, ip: int, jp: int, k: int, p: int, opposite: bool)
    requires State(n, ip, jp, k, p, opposite) && jp + k < |n|
    ensures n[ip + k] == n[jp + k] && k == p ==> State(n, ip, jp + p, 1, p, opposite)
    ensures n[ip + k] == n[jp + k] && k != p ==> State(n, ip, jp, k + 1, p, opposite)
    ensures Below(n[jp + k], n[ip + k], opposite) ==> State(n, ip, jp + k, 1, jp + k - ip, opposite)
    ensures Below(n[ip + k], n[jp + k], opposite) ==> State(n, jp, jp + 1, 1, 1, opposite)
  {
    if n[ip + k] == n[jp + k] {
      EqualByte(n, ip + 1, jp + 1, k - 1, p, opposite);
    } else if Below(n[jp + k], n[ip + k], opposite) {
      LowerByte(n, ip + 1, jp + 1, k - 1, p, opposite);
    } else {
      HigherByte(n, ip + 1, jp + 1, k - 1, p, opposite);
    }
  }

  /** The pass itself.  `ip` is one less than the start of the best suffix so far; it may be -1, where the
      C code relies on unsigned wrap-around. */
  method Pass(n: seq<Byte>, opposite: bool) returns (ip: int, p: nat)
    requires |n| > 0
    ensures -1 <= ip < |n| - 1
    ensures MaximalSuffix(n, ip + 1, opposite)
    ensures SmallestPeriod(n, ip + 1, p) && ip + 1 + p <= |n|
  {
    Starts(n, opposite);
    ip := -1;
    var jp, k := 0, 1;
    p := 1;
    while jp + k < |n|
      invariant State(n, ip, jp, k, p, opposite)
      decreases |n| - jp, |n| - k
    {
      Steps(n, ip, jp, k, p, opposite);
      if n[ip + k] == n[jp + k] {
        if k == p {
          jp := jp + p;
          k := 1;
        } else {
          k := k + 1;
        }
      } else if Below(n[jp + k], n[ip + k], opposite) {
        jp := jp + k;
        k := 1;
        p := jp - ip;
      } else {
        ip := jp;
        jp := jp + 1;
        k, p := 1, 1;
      }
    }
    ScanComplete(n, ip + 1, jp + 1, k - 1, p, opposite);
  }
}

/** The search of libcompat/memmem.c.  A pointer into the haystack is an index into it; null is -1. */
module Memmem {
  import opened Basics
  import opened Words
  import SuffixScan

  ghost predicate OccursAt(h: seq<Byte>, n: seq<Byte>, at: nat) {
    at + |n| <= |h| && h[at..at + |n|] == n
  }

  /** r is the lowest index at which n occurs in h, or -1 if n does not occur. */
  ghost predicate FirstOccurrence(h: seq<Byte>, n: seq<Byte>, r: int) {
    && -1 <= r
    && (0 <= r ==> OccursAt(h, n, r))
    && forall q: nat :: r < 0 || q < r ==> !OccursAt(h, n, q)
  }

  ghost predicate NoOccurrence(h: seq<Byte>, n: seq<Byte>, lo: nat, hi: nat) {
    forall q: nat :: lo <= q < hi ==> !OccursAt(h, n, q)
  }

  /** n[lo..hi) agrees with the haystack when n is laid at index `at`. */
  ghost predicate Agree(h: seq<Byte>, n: seq<Byte>, at: nat, lo: nat, hi: nat) {
    && hi <= |n| && at + |n| <= |h|
    && forall i, j :: lo <= i < hi && j == at + i ==> n[i] == h[j]
  }

  lemma AgreeEverywhere(h: seq<Byte>, n: seq<Byte>, at: nat)
    requires at + |n| <= |h|
    ensures Agree(h, n, at, 0, |n|) <==> OccursAt(h, n, at)
  {}

  // ----- rolling windows for needles of two to four bytes

  /** The widths of uint16_t and uint32_t.  The operands of each C `|` have no bit in common, so it is a sum. */
  const WIDTH_16 := 0x1_0000
  const WIDTH_32 := 0x1_0000_0000

  /** The m bytes of h at i, as a big-endian number. */
  ghost function Window(h: seq<Byte>, i: nat, m: nat): (w: nat)
    requires i + m <= |h|
    ensures w < Power(m)
  {
    NumberFits(h[i..i + m]);
    Number(h[i..i + m])
  }

  lemma WindowGrows(h: seq<Byte>, i: nat, m: nat)
    requires i + m < |h|
    ensures Window(h, i, m + 1) == Window(h, i, m) * 0x100 + h[i + m] as int
  {
    assert h[i..i + m + 1][..m] == h[i..i + m];
  }

  lemma {:induction false} WindowMatches(h: seq<Byte>, n: seq<Byte>, i: nat, m: nat)
    requires i + m <= |h| && m <= |n|
    ensures Window(h, i, m) == Window(n, 0, m) <==> forall j, k :: 0 <= j < m && k == i + j ==> n[j] == h[k]
  {
    if m > 0 {
      WindowMatches(h, n, i, m - 1);
      WindowGrows(h, i, m - 1);
      WindowGrows(n, 0, m - 1);
    }
  }

  lemma WindowOccurs(h: seq<Byte>, n: seq<Byte>, i: nat)
    requires i + |n| <= |h|
    ensures Window(h, i, |n|) == Window(n, 0, |n|) <==> OccursAt(h, n, i)
  {
    WindowMatches(h, n, i, |n|);
    AgreeEverywhere(h, n, i);
  }

  lemma Distribute(a: int, b: int, c: int)
    ensures (a * b + c) * 0x100 == a * (b * 0x100) + c * 0x100
  {}

  lemma {:induction false} WindowMoves(h: seq<Byte>, i: nat, m: nat)
    requires i + m < |h|
    ensures Window(h, i, m) * 0x100 + h[i + m] as int == h[i] as int * Power(m) + Window(h, i + 1, m)
  {
    if m > 0 {
      WindowMoves(h, i, m - 1);
      WindowGrows(h, i, m - 1);
      WindowGrows(h, i + 1, m - 1);
      calc {
        Window(h, i, m) * 0x100 + h[i + m] as int;
        (h[i] as int * Power(m - 1) + Window(h, i + 1, m - 1)) * 0x100 + h[i + m] as int;
        { Distribute(h[i] as int, Power(m - 1), Window(h, i + 1, m - 1)); }
        h[i] as int * (Power(m - 1) * 0x100) + (Window(h, i + 1, m - 1) * 0x100 + h[i + m] as int);
      }
    }
  }

  /** Truncation to the width of the window drops the byte that moves out of it. */
  lemma WindowTruncates(h: seq<Byte>, i: nat, m: nat)
    requires m > 0 && i + m < |h|
    ensures (Window(h, i, m) * 0x100) % Power(m) + h[i + m] as int == Window(h, i + 1, m)
    ensures ((Window(h, i, m) * 0x100 + h[i + m] as int) * 0x100) % Power(m + 1) == Window(h, i + 1, m) * 0x100
  {
    WindowMoves(h, i, m);
    var rest := Window(h, i + 1, m);
    Remainder(Window(h, i, m) * 0x100, h[i] as int, Power(m), rest - h[i + m] as int);
    Remainder((Window(h, i, m) * 0x100 + h[i + m] as int) * 0x100, h[i] as int, Power(m + 1), rest * 0x100);
  }

  lemma Remainder(x: nat, q: nat, d: nat, r: nat)
    requires d > 0 && x == q * d + r && r < d
    ensures x % d == r
  {
    var u := x / d;
    assert x == u * d + x % d;
    if u < q { AtLeastOnce(q - u, d); } else if q < u { AtLeastOnce(u - q, d); }
  }

  lemma AtLeastOnce(a: int, d: nat)
    requires a >= 1
    ensures a * d >= d
  {}

  lemma Widths()
    ensures Power(2) == WIDTH_16 && Power(4) == WIDTH_32
  {}

  lemma FirstWindow(h: seq<Byte>)
    ensures |h| >= 3 ==> Window(h, 0, 3) == h[0] as int * 0x1_0000 + h[1] as int * 0x100 + h[2] as int
    ensures |h| >= 4 ==> Window(h, 0, 4) == Window(h, 0, 3) * 0x100 + h[3] as int
  {
    if |h| >= 3 {
      WindowGrows(h, 0, 0);
      WindowGrows(h, 0, 1);
      WindowGrows(h, 0, 2);
    }
    if |h| >= 4 { WindowGrows(h, 0, 3); }
  }

  method TwoByte(h: seq<Byte>, n: seq<Byte>) returns (r: int)
    requires |n| == 2 <= |h|
    ensures FirstOccurrence(h, n, r)
  {
    var nw, hw := n[0] as int * 0x100 + n[1] as int, h[0] as int * 0x100 + h[1] as int;
    var i, k := 2, |h| - 2;
    Widths();
    WindowGrows(n, 0, 0);
    WindowGrows(n, 0, 1);
    WindowGrows(h, 0, 0);
    WindowGrows(h, 0, 1);
    while k != 0
      invariant 2 <= i && 0 <= k && i + k == |h|
      invariant hw == Window(h, i - 2, 2)
      invariant NoOccurrence(h, n, 0, i - 2)
    {
      WindowOccurs(h, n, i - 2);
      if hw == nw { return i - 2; }
      WindowTruncates(h, i - 2, 2);
      hw := (hw * 0x100) % WIDTH_16 + h[i] as int;
      i, k := i + 1, k - 1;
    }
    WindowOccurs(h, n, i - 2);
    return if hw == nw then i - 2 else -1;
  }

  method ThreeByte(h: seq<Byte>, n: seq<Byte>) returns (r: int)
    requires |n| == 3 <= |h|
    ensures FirstOccurrence(h, n, r)
  {
    var nw := n[0] as int * 0x100_0000 + n[1] as int * 0x1_0000 + n[2] as int * 0x100;
    var hw := h[0] as int * 0x100_0000 + h[1] as int * 0x1_0000 + h[2] as int * 0x100;
    var i, k := 3, |h| - 3;
    Widths();
    FirstWindow(n);
    FirstWindow(h);
    while k != 0
      invariant 3 <= i && 0 <= k && i + k == |h|
      invariant hw == Window(h, i - 3, 3) * 0x100
      invariant NoOccurrence(h, n, 0, i - 3)
    {
      WindowOccurs(h, n, i - 3);
      if hw == nw { return i - 3; }
      WindowTruncates(h, i - 3, 3);
      hw := ((hw + h[i] as int) * 0x100) % WIDTH_32;
      i, k := i + 1, k - 1;
    }
    WindowOccurs(h, n, i - 3);
    return if hw == nw then i - 3 else -1;
  }

  method FourByte(h: seq<Byte>, n: seq<Byte>) returns (r: int)
    requires |n| == 4 <= |h|
    ensures FirstOccurrence(h, n, r)
  {
    var nw := n[0] as int * 0x100_0000 + n[1] as int * 0x1_0000 + n[2] as int * 0x100 + n[3] as int;
    var hw := h[0] as int * 0x100_0000 + h[1] as int * 0x1_0000 + h[2] as int * 0x100 + h[3] as int;
    var i, k := 4, |h| - 4;
    Widths();
    FirstWindow(n);
    FirstWindow(h);
    while k != 0
      invariant 4 <= i && 0 <= k && i + k == |h|
      invariant hw == Window(h, i - 4, 4)
      invariant NoOccurrence(h, n, 0, i - 4)
    {
      WindowOccurs(h, n, i - 4);
      if hw == nw { return i - 4; }
      WindowTruncates(h, i - 4, 4);
      hw := (hw * 0x100) % WIDTH_32 + h[i] as int;
      i, k := i + 1, k - 1;
    }
    WindowOccurs(h, n, i - 4);
    return if hw == nw then i - 4 else -1;
  }

  // ----- why no skip of the two-way search jumps over an occurrence

  /** Shifting by less than p never lets the part from c on agree with itself. */
  ghost predicate SafeShift(n: seq<Byte>, c: nat, p: nat) {
    p >= 1 && forall s: nat :: 0 < s < p ==> !LocalRepetition(n, c, s)
  }

  lemma PeriodicShift(n: seq<Byte>, c: nat, p: nat)
    requires c < |n| && Critical(n, c) && SmallestPeriod(n, c, p) && c + p <= |n|
    requires n[..c] == n[p..p + c]
    ensures SafeShift(n, c, p) && c < p && Period(n, 0, p)
  {
    PrefixRepeats(n, c, p);
    forall s: nat | 0 < s < p
      ensures !LocalRepetition(n, c, s)
    {
      if LocalRepetition(n, c, s) {
        assert Period(n, c, s);
      }
    }
    assert LocalRepetition(n, c, p);
  }

  lemma AperiodicShift(n: seq<Byte>, c: nat, p: nat)
    requires c < |n| && Critical(n, c) && SmallestPeriod(n, c, p) && c + p <= |n|
    requires n[..c] != n[p..p + c]
    ensures SafeShift(n, c, Max(c - 1, |n| - c) + 1)
  {
    PrefixRepeats(n, c, p);
    forall s: nat | 0 < s < Max(c - 1, |n| - c) + 1
      ensures !LocalRepetition(n, c, s)
    {
      if LocalRepetition(n, c, s) {
        SuffixPeriodIsGlobal(n, c, p, s);
      }
    }
  }

  function Max(a: int, b: int): int {
    if a > b then a else b
  }

  /** An occurrence at at + s repeats, at distance s around c, whatever n shares with the haystack from c on. */
  lemma OverlapRepeats(h: seq<Byte>, n: seq<Byte>, at: nat, c: nat, k: nat, s: nat)
    requires c < |n| && Agree(h, n, at, c, k) && OccursAt(h, n, at + s) && s >= 1
    requires k == |n| || s <= k - c
    ensures LocalRepetition(n, c, s)
  {}

  lemma MismatchMatches(h: seq<Byte>, n: seq<Byte>, at: nat, c: nat, k: nat, s: nat)
    requires c < |n| && Critical(n, c) && c <= k < |n| && Agree(h, n, at, c, k)
    requires 0 < s <= k - c && OccursAt(h, n, at + s)
    ensures n[k] == h[at + k]
  {
    OverlapRepeats(h, n, at, c, k, s);
    AgreeEverywhere(h, n, at + s);
    assert n[k - s] == n[k];
  }

  /** n[k] is the first byte from c on that disagrees: the next k - c places are no occurrences. */
  lemma MismatchSkip(h: seq<Byte>, n: seq<Byte>, at: nat, c: nat, k: nat)
    requires c < |n| && Critical(n, c) && c <= k < |n|
    requires Agree(h, n, at, c, k) && n[k] != h[at + k]
    ensures NoOccurrence(h, n, at, at + (k - c) + 1)
  {
    AgreeEverywhere(h, n, at);
    forall q: nat | at < q < at + (k - c) + 1 ensures !OccursAt(h, n, q) {
      if OccursAt(h, n, q) { MismatchMatches(h, n, at, c, k, q - at); }
    }
  }

  /** Everything from c on agrees: the next p - 1 places are no occurrences. */
  lemma PeriodSkip(h: seq<Byte>, n: seq<Byte>, at: nat, c: nat, p: nat)
    requires c < |n| && SafeShift(n, c, p) && Agree(h, n, at, c, |n|)
    ensures NoOccurrence(h, n, at + 1, at + p)
  {
    forall q: nat | at < q < at + p ensures !OccursAt(h, n, q) {
      if OccursAt(h, n, q) { OverlapRepeats(h, n, at, c, |n|, q - at); }
    }
  }

  lemma LastByteMatches(h: seq<Byte>, n: seq<Byte>, at: nat, p: nat, s: nat)
    requires Period(n, 0, p) && p < |n| && Agree(h, n, at, 0, |n| - p)
    requires s < |n| - p && OccursAt(h, n, at + s)
    ensures h[at + |n| - 1] == n[|n| - 1]
  {
    AgreeEverywhere(h, n, at + s);
    var m := |n| - p - 1;
    assert h[at + m] == n[m] && h[at + m] == n[m - s];
    assert n[m] == n[m + p] && n[m - s] == n[m - s + p];
  }

  /** The last byte disagrees while the remembered prefix agrees: no occurrence starts inside that prefix. */
  lemma MemorySkip(h: seq<Byte>, n: seq<Byte>, at: nat, p: nat)
    requires Period(n, 0, p) && p < |n| && Agree(h, n, at, 0, |n| - p)
    requires h[at + |n| - 1] != n[|n| - 1]
    ensures NoOccurrence(h, n, at, at + (|n| - p))
  {
    forall q: nat | at <= q < at + (|n| - p) ensures !OccursAt(h, n, q) {
      if OccursAt(h, n, q) { LastByteMatches(h, n, at, p, q - at); }
    }
  }

  /** After a shift by the period, the part of n that precedes its last p bytes is known to agree. */
  lemma MemoryAgrees(h: seq<Byte>, n: seq<Byte>, at: nat, c: nat, p: nat)
    requires Period(n, 0, p) && c <= p < |n| && Agree(h, n, at, c, |n|) && at + p + |n| <= |h|
    ensures Agree(h, n, at + p, 0, |n| - p)
  {
    forall i, j | 0 <= i < |n| - p && j == at + p + i ensures n[i] == h[j] {
      assert n[i] == n[i + p];
    }
  }

  // ----- the two-way search

  /** For every byte of n: it is in the set, and `shift` is one past its last place in n. */
  ghost predicate Tables(n: seq<Byte>, byteset: seq<bool>, shift: seq<nat>) {
    && |byteset| == |shift| == 256
    && forall b: Byte :: (byteset[b] <==> b in n) && (byteset[b] ==> LastPlace(n, b, shift[b]))
  }

  ghost predicate LastPlace(n: seq<Byte>, b: Byte, s: nat) {
    1 <= s <= |n| && n[s - 1] == b && forall i :: s <= i < |n| ==> n[i] != b
  }

  method FillTables(n: seq<Byte>, byteset: array<bool>, shift: array<nat>)
    requires byteset.Length == shift.Length == 256
    requires forall b :: 0 <= b < 256 ==> !byteset[b]
    modifies byteset, shift
    ensures Tables(n, byteset[..], shift[..])
  {
    for i := 0 to |n|
      invariant Tables(n[..i], byteset[..], shift[..])
    {
      byteset[n[i]] := true;
      shift[n[i]] := i + 1;
      assert n[..i + 1] == n[..i] + [n[i]];
    }
    assert n[..|n|] == n;
  }

  /** The haystack byte under the needle's last place does not occur among the needle's last k bytes. */
  lemma LastByteSkip(h: seq<Byte>, n: seq<Byte>, at: nat, k: nat)
    requires 0 < |n| && at + |n| <= |h| && k <= |n|
    requires forall i :: |n| - k <= i < |n| ==> n[i] != h[at + |n| - 1]
    ensures NoOccurrence(h, n, at, at + k)
  {
    forall q: nat | at <= q < at + k ensures !OccursAt(h, n, q) {
      if q + |n| <= |h| {
        assert h[q..q + |n|][at + |n| - 1 - q] == h[at + |n| - 1];
      }
    }
  }

  lemma PrefixRepeats(n: seq<Byte>, c: nat, p: nat)
    requires Period(n, c, p) && c + p <= |n|
    ensures n[..c] == n[p..p + c] <==> Period(n, 0, p)
  {}

  /** What the preprocessing leaves for the search: ms + 1 is critical, p is a safe shift, and mem0 bytes may
      be remembered after a shift by p. */
  ghost predicate Prepared(n: seq<Byte>, ms: int, p: nat, mem0: nat) {
    && -1 <= ms < |n| - 1
    && Critical(n, ms + 1) && SafeShift(n, ms + 1, p) && 1 <= p <= |n|
    && (mem0 != 0 ==> mem0 == |n| - p && ms + 1 <= p && Period(n, 0, p))
  }

  lemma PeriodicPrepared(n: seq<Byte>, ms: int, p: nat)
    requires -1 <= ms < |n| - 1 && Critical(n, ms + 1) && SmallestPeriod(n, ms + 1, p) && ms + 1 + p <= |n|
    requires n[..ms + 1] == n[p..p + ms + 1]
    ensures Prepared(n, ms, p, |n| - p)
  {
    PeriodicShift(n, ms + 1, p);
  }

  lemma AperiodicPrepared(n: seq<Byte>, ms: int, p: nat)
    requires -1 <= ms < |n| - 1 && Critical(n, ms + 1) && SmallestPeriod(n, ms + 1, p) && ms + 1 + p <= |n|
    requires n[..ms + 1] != n[p..p + ms + 1]
    ensures Prepared(n, ms, Max(ms, |n| - ms - 1) + 1, 0)
  {
    AperiodicShift(n, ms + 1, p);
  }

  /** The two maximal-suffix passes and the periodicity test. */
  method Prepare(n: seq<Byte>) returns (ms: int, p: nat, mem0: nat)
    requires |n| > 0
    ensures Prepared(n, ms, p, mem0)
  {
    var l, p0, ip := |n|, 0, 0;
    ms, p0 := SuffixScan.Pass(n, false);
    ip, p := SuffixScan.Pass(n, true);
    if ip + 1 > ms + 1 {
      CriticalFactorization(n, ip + 1, ms + 1, true);
      ms := ip;
    } else {
      CriticalFactorization(n, ms + 1, ip + 1, false);
      p := p0;
    }
    if n[..ms + 1] != n[p..p + ms + 1] {
      AperiodicPrepared(n, ms, p);
      mem0 := 0;
      p := Max(ms, l - ms - 1) + 1;
    } else {
      PeriodicPrepared(n, ms, p);
      mem0 := l - p;
    }
  }

  method CompareRight(h: seq<Byte>, n: seq<Byte>, hp: nat, c: nat, mem: nat) returns (k: nat)
    requires c <= |n| && Agree(h, n, hp, 0, mem)
    ensures Max(c, mem) <= k <= |n| && Agree(h, n, hp, c, k)
    ensures k < |n| ==> n[k] != h[hp + k]
  {
    k := Max(c, mem);
    while k < |n| && n[k] == h[hp + k]
      invariant Max(c, mem) <= k <= |n|
      invariant Agree(h, n, hp, c, k)
    {
      k := k + 1;
    }
  }

  method CompareLeft(h: seq<Byte>, n: seq<Byte>, hp: nat, c: nat, mem: nat) returns (k: nat)
    requires c <= |n| && Agree(h, n, hp, 0, mem) && Agree(h, n, hp, c, |n|)
    ensures k <= mem ==> OccursAt(h, n, hp)
    ensures mem < k ==> !OccursAt(h, n, hp)
  {
    k := c;
    while k > mem && n[k - 1] == h[hp + k - 1]
      invariant k <= c
      invariant Agree(h, n, hp, k, |n|)
    {
      k := k - 1;
    }
    AgreeEverywhere(h, n, hp);
  }

  /** The search has passed the last place, or has found one. */
  lemma SearchEnds(h: seq<Byte>, n: seq<Byte>, hp: nat)
    requires NoOccurrence(h, n, 0, hp)
    ensures |h| < hp + |n| ==> FirstOccurrence(h, n, -1)
    ensures OccursAt(h, n, hp) ==> FirstOccurrence(h, n, hp)
  {}

  method TwoWay(h: seq<Byte>, n: seq<Byte>) returns (r: int)
    requires |n| > 0
    ensures FirstOccurrence(h, n, r)
  {
    hide SafeShift, Critical, Period, OccursAt, FirstOccurrence;
    var l := |n|;
    var byteset := new bool[256](_ => false);
    var shift := new nat[256];
    FillTables(n, byteset, shift);
    var ms, p, mem0 := Prepare(n);
    var mem, hp := 0, 0;
    while true
      invariant hp <= |h|
      invariant mem == 0 || mem == mem0
      invariant hp + l <= |h| ==> Agree(h, n, hp, 0, mem)
      invariant NoOccurrence(h, n, 0, hp)
      modifies {}
      decreases |h| - hp
    {
      SearchEnds(h, n, hp);
      if |h| - hp < l { return -1; }

      // last byte
      var last := h[hp + l - 1];
      var k := 0;
      assert byteset[last] == byteset[..][last] && shift[last] == shift[..][last];
      if byteset[last] {
        k := l - shift[last];
        if k != 0 {
          LastByteSkip(h, n, hp, k);
          if k < mem {
            MemorySkip(h, n, hp, p);
            k := mem;
          }
          hp := hp + k;
          mem := 0;
          continue;
        }
      } else {
        LastByteSkip(h, n, hp, l);
        hp := hp + l;
        mem := 0;
        continue;
      }

      // right half
      k := CompareRight(h, n, hp, ms + 1, mem);
      if k < l {
        MismatchSkip(h, n, hp, ms + 1, k);
        hp := hp + (k - ms);
        mem := 0;
        continue;
      }

      // left half
      k := CompareLeft(h, n, hp, ms + 1, mem);
      if k <= mem { return hp; }
      PeriodSkip(h, n, hp, ms + 1, p);
      if mem0 != 0 && hp + p + l <= |h| { MemoryAgrees(h, n, hp, ms + 1, p); }
      hp := hp + p;
      mem := mem0;
    }
  }

  /** memchr of the C library: the lowest index of c in s, or -1. */
  method MemChr(s: seq<Byte>, c: Byte) returns (r: int)
    ensures -1 <= r < |s| && (0 <= r ==> s[r] == c)
    ensures forall i :: 0 <= i < |s| && (r < 0 || i < r) ==> s[i] != c
  {
    for i := 0 to |s|
      invariant forall j :: 0 <= j < i ==> s[j] != c
    {
      if s[i] == c { return i; }
    }
    return -1;
  }

  /** Searching from the first place where the needle's first byte occurs loses nothing. */
  lemma FromFirstByte(h: seq<Byte>, n: seq<Byte>, at: nat, r: int)
    requires |n| > 0 && at <= |h| && FirstOccurrence(h[at..], n, r)
    requires forall i :: 0 <= i < at ==> h[i] != n[0]
    ensures FirstOccurrence(h, n, if r < 0 then -1 else at + r)
  {
    if 0 <= r {
      assert h[at..][r..r + |n|] == h[at + r..at + r + |n|];
    }
    forall q: nat | r < 0 || q < at + r ensures !OccursAt(h, n, q) {
      if q + |n| <= |h| {
        assert h[q..q + |n|][0] == h[q];
        if at <= q {
          assert h[at..][q - at..q - at + |n|] == h[q..q + |n|];
          assert !OccursAt(h[at..], n, q - at);
        }
      }
    }
  }

  method Memmem(h0: seq<Byte>, n: seq<Byte>) returns (r: int)
    ensures FirstOccurrence(h0, n, r)
  {
    var k, l := |h0|, |n|;
    if l == 0 { return 0; }
    if k < l { return -1; }

    var at := MemChr(h0, n[0]);
    if at < 0 || l == 1 {
      forall q: nat | at < 0 || q < at ensures !OccursAt(h0, n, q) {
        if q + l <= k { assert h0[q..q + l][0] == h0[q]; }
      }
      return at;
    }
    var h := h0[at..];
    k := k - at;
    if k < l {
      FromFirstByte(h0, n, at, -1);
      return -1;
    }
    if l == 2 {
      r := TwoByte(h, n);
    } else if l == 3 {
      r := ThreeByte(h, n);
    } else if l == 4 {
      r := FourByte(h, n);
    } else {
      r := TwoWay(h, n);
    }
    FromFirstByte(h0, n, at, r);
    return if r < 0 then -1 else at + r;
  }
}
