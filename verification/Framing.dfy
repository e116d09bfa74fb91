/** Digests, hex, u32 frames and the pre-images they make up. */
module Framing {
  import opened JsText

  type Digest = d: Bytes | |d| == 64 witness seq(64, _ => 0)

  /** SHA3-512 seen from outside: any function to 64 bytes. It cannot be injective. */
  type Hasher = Bytes -> Digest

  /** Two different inputs, one hashed on each side, with one digest. */
  ghost predicate Collide(h: Hasher, xs: set<Bytes>, ys: set<Bytes>) {
    exists x, y :: x in xs && y in ys && x != y && h(x) == h(y)
  }

  lemma {:induction false} CollideMonotone(h: Hasher, xs: set<Bytes>, ys: set<Bytes>, xs': set<Bytes>, ys': set<Bytes>)
    requires xs <= xs' && ys <= ys'
    ensures Collide(h, xs, ys) ==> Collide(h, xs', ys')
  {
  }

  // ---------- concatHash ----------

  function Flatten(parts: seq<Bytes>): Bytes {
    if parts == [] then [] else parts[0] + Flatten(parts[1..])
  }

  lemma {:induction false} Reassociate(x: Bytes, y: Bytes, z: Bytes)
    ensures x + (y + z) == (x + y) + z
  {
  }

  lemma {:induction false} FlattenAppend(ps: seq<Bytes>, qs: seq<Bytes>)
    ensures Flatten(ps + qs) == Flatten(ps) + Flatten(qs)
  {
    if ps == [] {
      assert ps + qs == qs;
    } else {
      FlattenAppend(ps[1..], qs);
      assert (ps + qs)[0] == ps[0] && (ps + qs)[1..] == ps[1..] + qs;
      Reassociate(ps[0], Flatten(ps[1..]), Flatten(qs));
    }
  }

  lemma {:induction false} FlattenSnoc(ps: seq<Bytes>, k: nat)
    requires k < |ps|
    ensures Flatten(ps[..k + 1]) == Flatten(ps[..k]) + ps[k]
  {
    assert ps[..k + 1] == ps[..k] + [ps[k]];
    FlattenAppend(ps[..k], [ps[k]]);
    assert Flatten([ps[k]]) == ps[k] + Flatten([]);
  }

  method TotalLength(parts: seq<Bytes>) returns (total: nat)
    ensures total == |Flatten(parts)|
  {
    total := 0;
    for i := 0 to |parts|
      invariant total == |Flatten(parts[..i])|
    {
      FlattenSnoc(parts, i);
      total := total + |parts[i]|;
    }
    assert parts[..|parts|] == parts;
  }

  lemma {:induction false} FlattenPrefix(parts: seq<Bytes>, i: nat)
    requires i <= |parts|
    ensures |Flatten(parts[..i])| <= |Flatten(parts)|
  {
    FlattenAppend(parts[..i], parts[i..]);
    assert parts[..i] + parts[i..] == parts;
  }

  method ConcatBytes(parts: seq<Bytes>) returns (out: array<Byte>)
    ensures fresh(out) && out[..] == Flatten(parts)
  {
    var total := TotalLength(parts);
    out := new Byte[total](_ => 0);
    var off := 0;
    for i := 0 to |parts|
      invariant off == |Flatten(parts[..i])| <= out.Length
      invariant out[..off] == Flatten(parts[..i])
    {
      FlattenSnoc(parts, i);
      FlattenPrefix(parts, i + 1);
      forall j | 0 <= j < |parts[i]| {
        out[off + j] := parts[i][j];
      }
      assert out[..off] == Flatten(parts[..i]);
      assert out[off..off + |parts[i]|] == parts[i];
      off := off + |parts[i]|;
      assert out[..off] == Flatten(parts[..i]) + parts[i];
    }
    assert parts[..|parts|] == parts;
  }

  method ConcatHash(h: Hasher, parts: seq<Bytes>) returns (d: Digest)
    ensures d == h(Flatten(parts))
  {
    var buf := ConcatBytes(parts);
    d := h(buf[..]);
  }

  // ---------- u32 and frames ----------

  const TWO32 := 0x1_0000_0000

  /** DataView.setUint32, big endian: the number modulo 2^32. */
  function U32(n: nat): (r: Bytes)
    ensures |r| == 4
  {
    [n / 0x100 / 0x100 / 0x100 % 0x100, n / 0x100 / 0x100 % 0x100, n / 0x100 % 0x100, n % 0x100]
  }

  lemma {:induction false} U32Injective(m: nat, n: nat)
    requires m < TWO32 && n < TWO32 && U32(m) == U32(n)
    ensures m == n
  {
    U32Decodes(m);
    U32Decodes(n);
  }

  lemma {:induction false} U32Decodes(n: nat)
    requires n < TWO32
    ensures var r: seq<int> := U32(n); n == ((r[0] * 0x100 + r[1]) * 0x100 + r[2]) * 0x100 + r[3]
  {
    var a := n / 0x100;
    var b := a / 0x100;
    assert n == a * 0x100 + n % 0x100 && a == b * 0x100 + a % 0x100 && b == b / 0x100 * 0x100 + b % 0x100;
  }

  function Framed(b: Bytes): Bytes {
    U32(|b|) + b
  }

  /** A length that reads as n is n, or longer by what setUint32 drops. */
  lemma {:induction false} U32Wraps(m: nat, n: nat)
    requires n < TWO32 && U32(m) == U32(n)
    ensures m == n || m >= n + TWO32
  {
    var a := m / 0x100;
    var b := a / 0x100;
    var c := b / 0x100;
    assert m == a * 0x100 + m % 0x100 && a == b * 0x100 + a % 0x100 && b == c * 0x100 + b % 0x100;
    assert c == c / 0x100 * 0x100 + c % 0x100;
    U32Decodes(n);
    var r: seq<int> := U32(m);
    assert m == c / 0x100 * TWO32 + ((r[0] * 0x100 + r[1]) * 0x100 + r[2]) * 0x100 + r[3];
  }

  /** A frame says where it ends, if the field that was framed on one side and what follows it there are short enough. */
  lemma {:induction false} FramePrefixOf(a: Bytes, b: Bytes, x: Bytes, y: Bytes)
    requires |b| < TWO32 && |y| < |x| + TWO32
    requires Framed(a) + x == Framed(b) + y
    ensures a == b && x == y
  {
    var p, q := Framed(a) + x, Framed(b) + y;
    assert p[..4] == U32(|a|) && q[..4] == U32(|b|);
    U32Wraps(|a|, |b|);
    assert |p| == 4 + |a| + |x| && |q| == 4 + |b| + |y|;
    assert a == p[4..4 + |a|] && b == q[4..4 + |b|];
    assert x == p[4 + |a|..] && y == q[4 + |b|..];
  }

  /** A frame says where it ends. */
  lemma {:induction false} FramePrefix(a: Bytes, b: Bytes, x: Bytes, y: Bytes)
    requires |a| < TWO32 && |b| < TWO32
    requires Framed(a) + x == Framed(b) + y
    ensures a == b && x == y
  {
    assert |Framed(a) + x| == 4 + |a| + |x| && |Framed(b) + y| == 4 + |b| + |y|;
    FramePrefixOf(a, b, x, y);
  }

  // ---------- hex ----------

  function HexDigit(n: nat): (u: CodeUnit)
    requires n < 16
  {
    if n < 10 then 48 + n else 87 + n
  }

  function BytesToHex(b: Bytes): (r: JsString)
    ensures |r| == 2 * |b|
  {
    if b == [] then [] else [HexDigit(b[0] / 16), HexDigit(b[0] % 16)] + BytesToHex(b[1..])
  }

  predicate IsHexDigit(u: CodeUnit) { 48 <= u < 58 || 97 <= u < 103 }

  function HexValue(u: CodeUnit): (n: nat)
    ensures IsHexDigit(u) ==> n < 16 && HexDigit(n) == u
  {
    if 48 <= u < 58 then u - 48 else if 97 <= u < 103 then u - 87 else 0
  }

  /** parseInt(pair, 16) over the pairs of a lower-case hex string. */
  function HexToBytes(s: JsString): (r: Bytes)
    requires |s| % 2 == 0 && forall i :: 0 <= i < |s| ==> IsHexDigit(s[i])
    ensures |r| == |s| / 2
  {
    if s == [] then [] else [HexValue(s[0]) * 16 + HexValue(s[1])] + HexToBytes(s[2..])
  }

  lemma {:induction false} HexRoundTrip(b: Bytes)
    ensures forall i :: 0 <= i < |BytesToHex(b)| ==> IsHexDigit(BytesToHex(b)[i])
    ensures HexToBytes(BytesToHex(b)) == b
  {
    if b != [] {
      HexRoundTrip(b[1..]);
      var s := BytesToHex(b);
      assert s[2..] == BytesToHex(b[1..]);
      assert b == [b[0]] + b[1..];
    }
  }

  lemma {:induction false} HexInjective(a: Bytes, b: Bytes)
    requires BytesToHex(a) == BytesToHex(b)
    ensures a == b
  {
    HexRoundTrip(a);
    HexRoundTrip(b);
  }
}
