/** Keys as bit strings: how string order, first divergence and zero padding relate. */
module Bits {
  import opened JsText

  /** b >> n */
  function ShiftRight(b: nat, n: nat): nat {
    if n == 0 then b else ShiftRight(b, n - 1) / 2
  }

  /** Bit k of a byte, counted from the left. */
  function ByteBit(b: Byte, k: nat): (r: nat)
    requires k < 8
    ensures r < 2
  {
    ShiftRight(b, 7 - k) % 2
  }

  /** bitAt: past the end of the key every bit reads 0. */
  function BitAt(bytes: Bytes, bit: nat): (r: nat)
    ensures r < 2
  {
    if bit >= |bytes| * 8 then 0 else ByteBit(bytes[bit / 8], bit % 8)
  }

  function PaddedByte(b: Bytes, i: nat): Byte {
    if i < |b| then b[i] else 0
  }

  lemma {:induction false} BitOfPadded(b: Bytes, bit: nat)
    ensures BitAt(b, bit) == ByteBit(PaddedByte(b, bit / 8), bit % 8)
  {
    ShiftZero(7 - bit % 8);
  }

  lemma {:induction false} BitWithin(b: Bytes, n: nat, k: nat)
    requires k < 8
    ensures BitAt(b, 8 * n + k) == ByteBit(PaddedByte(b, n), k)
  {
    BitOfPadded(b, 8 * n + k);
    assert (8 * n + k) / 8 == n && (8 * n + k) % 8 == k;
  }

  /** The lowest bit where a and b disagree is d, and a is the one with 0 there. */
  ghost predicate SplitsAt(a: Bytes, b: Bytes, d: nat) {
    (forall m: nat :: m < d ==> BitAt(a, m) == BitAt(b, m)) && BitAt(a, d) == 0 && BitAt(b, d) == 1
  }

  /** a is before b in the order of zero-padded bit strings. */
  ghost predicate Before(a: Bytes, b: Bytes) {
    exists d: nat :: SplitsAt(a, b, d)
  }

  ghost predicate Diverge(a: Bytes, b: Bytes) {
    exists d: nat :: BitAt(a, d) != BitAt(b, d)
  }

  /** The lowest bit where two diverging keys disagree. */
  ghost function FirstDiff(a: Bytes, b: Bytes): (d: nat)
    requires Diverge(a, b)
    ensures BitAt(a, d) != BitAt(b, d) && forall m: nat :: m < d ==> BitAt(a, m) == BitAt(b, m)
  {
    var e: nat :| BitAt(a, e) != BitAt(b, e);
    LowestDiff(a, b, e)
  }

  ghost function LowestDiff(a: Bytes, b: Bytes, e: nat): (d: nat)
    requires BitAt(a, e) != BitAt(b, e)
    ensures BitAt(a, d) != BitAt(b, d) && forall m: nat :: m < d ==> BitAt(a, m) == BitAt(b, m)
    decreases e
  {
    if m: nat :| m < e && BitAt(a, m) != BitAt(b, m) then LowestDiff(a, b, m) else e
  }

  // ---------- bytes ----------

  lemma {:induction false} ShiftZero(n: nat)
    ensures ShiftRight(0, n) == 0
  {
    if n > 0 {
      ShiftZero(n - 1);
    }
  }

  lemma {:induction false} ShiftMonotone(x: nat, y: nat, n: nat)
    requires x <= y
    ensures ShiftRight(x, n) <= ShiftRight(y, n)
  {
    if n > 0 {
      ShiftMonotone(x, y, n - 1);
    }
  }

  /** Equal after n shifts but different before: the shift where they part. */
  lemma {:induction false} ShiftParting(x: nat, y: nat, n: nat) returns (s: nat)
    requires x < y && ShiftRight(x, n) == ShiftRight(y, n)
    ensures s < n && ShiftRight(x, s) % 2 == 0 && ShiftRight(y, s) % 2 == 1
    ensures forall m :: s < m <= n ==> ShiftRight(x, m) == ShiftRight(y, m)
  {
    if ShiftRight(x, n - 1) == ShiftRight(y, n - 1) {
      s := ShiftParting(x, y, n - 1);
    } else {
      s := n - 1;
      ShiftMonotone(x, y, s);
    }
  }

  lemma {:induction false} ByteFitsEightBits(b: Byte)
    ensures ShiftRight(b, 8) == 0
  {
    var q1 := ShiftRight(b, 1);
    assert q1 == ShiftRight(b, 0) / 2 < 128;
    var q3 := ShiftRight(b, 3);
    assert q3 == ShiftRight(b, 2) / 2 && ShiftRight(b, 2) == q1 / 2;
    var q5 := ShiftRight(b, 5);
    assert q5 == ShiftRight(b, 4) / 2 && ShiftRight(b, 4) == q3 / 2;
    var q7 := ShiftRight(b, 7);
    assert q7 == ShiftRight(b, 6) / 2 && ShiftRight(b, 6) == q5 / 2;
    assert ShiftRight(b, 8) == q7 / 2;
  }

  /** Two bytes in order part at a bit where the smaller has 0 and the larger 1. */
  lemma {:induction false} ByteParting(x: Byte, y: Byte) returns (k: nat)
    requires x < y
    ensures k < 8 && ByteBit(x, k) == 0 && ByteBit(y, k) == 1
    ensures forall m: nat :: m < k ==> ByteBit(x, m) == ByteBit(y, m)
  {
    ByteFitsEightBits(x);
    ByteFitsEightBits(y);
    var s := ShiftParting(x, y, 8);
    k := 7 - s;
  }

  lemma {:induction false} ByteBitsDetermine(x: Byte, y: Byte)
    requires forall k: nat :: k < 8 ==> ByteBit(x, k) == ByteBit(y, k)
    ensures x == y
  {
    if x < y {
      var k := ByteParting(x, y);
    } else if y < x {
      var k := ByteParting(y, x);
    }
  }

  // ---------- strings ----------

  function StripNuls(b: Bytes): (r: Bytes) {
    if b != [] && b[|b| - 1] == 0 then StripNuls(b[..|b| - 1]) else b
  }

  lemma {:induction false} StripKeepsPadding(b: Bytes)
    ensures forall i: nat :: PaddedByte(StripNuls(b), i) == PaddedByte(b, i)
    ensures var s := StripNuls(b); |s| <= |b| && (s == [] || s[|s| - 1] != 0)
  {
    if b != [] && b[|b| - 1] == 0 {
      StripKeepsPadding(b[..|b| - 1]);
      forall i: nat
        ensures PaddedByte(b[..|b| - 1], i) == PaddedByte(b, i)
      {
      }
    }
  }

  /** The scan of buildBranch finds a divergence exactly when the keys differ otherwise than in trailing NULs. */
  lemma {:induction false} DivergeIffStrippedDiffer(a: Bytes, b: Bytes)
    ensures Diverge(a, b) <==> StripNuls(a) != StripNuls(b)
  {
    StripKeepsPadding(a);
    StripKeepsPadding(b);
    var p, q := StripNuls(a), StripNuls(b);
    if Diverge(a, b) {
      var d: nat :| BitAt(a, d) != BitAt(b, d);
      BitOfPadded(a, d);
      BitOfPadded(b, d);
      assert PaddedByte(p, d / 8) != PaddedByte(q, d / 8);
    }
    if p != q {
      var i := PaddedParting(p, q);
      assert PaddedByte(a, i) != PaddedByte(b, i);
      var x, y := PaddedByte(a, i), PaddedByte(b, i);
      var k := ByteParting(if x < y then x else y, if x < y then y else x);
      BitWithin(a, i, k);
      BitWithin(b, i, k);
    }
  }

  lemma {:induction false} PaddedParting(p: Bytes, q: Bytes) returns (i: nat)
    requires p != q && (p == [] || p[|p| - 1] != 0) && (q == [] || q[|q| - 1] != 0)
    ensures PaddedByte(p, i) != PaddedByte(q, i)
  {
    if |p| < |q| {
      i := |q| - 1;
    } else if |q| < |p| {
      i := |p| - 1;
    } else {
      i :| i < |p| && p[i] != q[i];
    }
  }

  lemma {:induction false} NulFreeDiverge(a: Bytes, b: Bytes)
    requires a != b && 0 !in a && 0 !in b
    ensures Diverge(a, b)
  {
    assert a != [] ==> a[|a| - 1] in a;
    assert b != [] ==> b[|b| - 1] in b;
    DivergeIffStrippedDiffer(a, b);
  }

  /** The first byte at which a is smaller comes no later than any disagreement. */
  lemma {:induction false} LexPaddedParting(a: Bytes, b: Bytes, n: nat)
    requires LexLess(a, b) && PaddedByte(a, n) != PaddedByte(b, n)
    requires forall m: nat :: m < n ==> PaddedByte(a, m) == PaddedByte(b, m)
    ensures PaddedByte(a, n) < PaddedByte(b, n)
  {
    var i := LexParting(a, b);
    assert forall j: nat :: j < i ==> PaddedByte(a, j) == a[..i][j] && PaddedByte(b, j) == b[..i][j];
    assert i <= n;
    if i < |a| {
      assert PaddedByte(a, i) != PaddedByte(b, i);
    }
  }

  lemma {:induction false} BytesBeforeAgree(a: Bytes, b: Bytes, d: nat)
    requires forall m: nat :: m < d ==> BitAt(a, m) == BitAt(b, m)
    ensures forall m: nat :: m < d / 8 ==> PaddedByte(a, m) == PaddedByte(b, m)
  {
    forall m: nat | m < d / 8
      ensures PaddedByte(a, m) == PaddedByte(b, m)
    {
      forall k: nat | k < 8
        ensures ByteBit(PaddedByte(a, m), k) == ByteBit(PaddedByte(b, m), k)
      {
        BitWithin(a, m, k);
        BitWithin(b, m, k);
        assert 8 * m + k < d;
      }
      ByteBitsDetermine(PaddedByte(a, m), PaddedByte(b, m));
    }
  }

  /** String order is bit order for keys the trie can tell apart. */
  lemma {:induction false} LexLessIsBefore(a: Bytes, b: Bytes)
    requires LexLess(a, b) && Diverge(a, b)
    ensures Before(a, b)
  {
    var d := FirstDiff(a, b);
    var n := d / 8;
    BitOfPadded(a, d);
    BitOfPadded(b, d);
    BytesBeforeAgree(a, b, d);
    LexPaddedParting(a, b, n);
    var k := ByteParting(PaddedByte(a, n), PaddedByte(b, n));
    BitWithin(a, n, k);
    BitWithin(b, n, k);
    assert d <= 8 * n + k;
    assert k == d % 8;
    assert SplitsAt(a, b, d);
  }

  /** What lies between two keys agrees with them wherever they agree. */
  lemma {:induction false} BetweenAgrees(a: Bytes, e: Bytes, b: Bytes, bit: nat)
    requires a == e || Before(a, e)
    requires e == b || Before(e, b)
    requires forall m: nat :: m < bit ==> BitAt(a, m) == BitAt(b, m)
    ensures forall m: nat :: m < bit ==> BitAt(e, m) == BitAt(a, m)
  {
    if a != e && e != b {
      var d: nat :| SplitsAt(a, e, d);
      var f: nat :| SplitsAt(e, b, f);
      assert d < bit ==> BitAt(b, d) == 0;
      assert d >= bit;
    }
  }
}
