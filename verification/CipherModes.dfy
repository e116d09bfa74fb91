/** The four modes of the cipher over byte buffers (sections 6.1 to 6.4 of NIST SP 800-38A). */
module CipherModes {
  import opened Prelude
  import opened Blowfish

  /** Big-endian words of four octets. */
  datatype Octets<!W, !B> = Octets(word: (B, B, B, B) -> W, octet: (W, nat) -> B, xor: (B, B) -> B, zero: B)

  /** Words and their four octets determine each other, and exclusive or works octet by octet. */
  ghost predicate Fit<W(!new), B(!new)>(c: Key<W>, o: Octets<W, B>) {
    && Undoes(c)
    && (forall w :: o.word(o.octet(w, 0), o.octet(w, 1), o.octet(w, 2), o.octet(w, 3)) == w)
    && (forall a, b, d, e :: var w := o.word(a, b, d, e);
          o.octet(w, 0) == a && o.octet(w, 1) == b && o.octet(w, 2) == d && o.octet(w, 3) == e)
    && (forall v, w, t: nat | t < 4 :: o.octet(c.xor(v, w), t) == o.xor(o.octet(v, t), o.octet(w, t)))
    && (forall a, b :: o.xor(a, o.xor(a, b)) == b)
  }

  // ---------- blocks of a buffer ----------

  function BlockAt<W, B>(o: Octets<W, B>, data: seq<B>, i: nat): Block<W>
    requires i + 8 <= |data|
  {
    Block(o.word(data[i], data[i + 1], data[i + 2], data[i + 3]), o.word(data[i + 4], data[i + 5], data[i + 6], data[i + 7]))
  }

  function OctetsOf<W, B>(o: Octets<W, B>, b: Block<W>): (r: seq<B>)
    ensures |r| == 8
  {
    [o.octet(b.l, 0), o.octet(b.l, 1), o.octet(b.l, 2), o.octet(b.l, 3),
     o.octet(b.r, 0), o.octet(b.r, 1), o.octet(b.r, 2), o.octet(b.r, 3)]
  }

  function Blocks<W, B>(o: Octets<W, B>, data: seq<B>): (r: seq<Block<W>>)
    ensures |r| == |data| / 8
  {
    seq(|data| / 8, k requires 0 <= k < |data| / 8 => BlockAt(o, data, 8 * k))
  }

  function Flat<W, B>(o: Octets<W, B>, bs: seq<Block<W>>): (r: seq<B>)
    ensures |r| == 8 * |bs|
  {
    if bs == [] then [] else Flat(o, bs[..|bs| - 1]) + OctetsOf(o, bs[|bs| - 1])
  }

  lemma {:induction false} FlatSnoc<W, B>(o: Octets<W, B>, bs: seq<Block<W>>, k: nat)
    requires k < |bs|
    ensures Flat(o, bs[..k + 1]) == Flat(o, bs[..k]) + OctetsOf(o, bs[k])
  {
    assert bs[..k + 1][..k] == bs[..k];
  }

  lemma {:induction false} FlatGrows<W, B>(o: Octets<W, B>, bs: seq<Block<W>>, k: nat)
    requires k <= |bs|
    ensures Flat(o, bs[..k]) <= Flat(o, bs)
    decreases |bs|
  {
    var n := |bs| - 1;
    if k <= n {
      FlatGrows(o, bs[..n], k);
      assert bs[..n][..k] == bs[..k];
    } else {
      assert bs[..k] == bs;
    }
  }

  lemma {:induction false} FlatPrefix<W, B>(o: Octets<W, B>, bs: seq<Block<W>>, k: nat)
    requires k < |bs|
    ensures Flat(o, bs[..k + 1]) == Flat(o, bs[..k]) + OctetsOf(o, bs[k])
    ensures Flat(o, bs)[..8 * k] == Flat(o, bs[..k]) && Flat(o, bs)[8 * k..8 * k + 8] == OctetsOf(o, bs[k])
  {
    FlatSnoc(o, bs, k);
    FlatGrows(o, bs, k);
    FlatGrows(o, bs, k + 1);
  }

  lemma {:induction false} BlockOfOctets<W(!new), B(!new)>(c: Key<W>, o: Octets<W, B>, b: Block<W>)
    requires Fit(c, o)
    ensures BlockAt(o, OctetsOf(o, b), 0) == b
  {
  }

  lemma {:induction false} OctetsOfBlock<W(!new), B(!new)>(c: Key<W>, o: Octets<W, B>, data: seq<B>, i: nat)
    requires Fit(c, o) && i + 8 <= |data|
    ensures OctetsOf(o, BlockAt(o, data, i)) == data[i..i + 8]
  {
  }

  lemma {:induction false} BlockOfSlice<W, B>(o: Octets<W, B>, data: seq<B>, i: nat)
    requires i + 8 <= |data|
    ensures BlockAt(o, data, i) == BlockAt(o, data[i..i + 8], 0)
  {
  }

  /** Cutting a buffer into blocks and writing them out again, and the reverse, change nothing. */
  lemma {:induction false} BlocksOfFlat<W(!new), B(!new)>(c: Key<W>, o: Octets<W, B>, bs: seq<Block<W>>)
    requires Fit(c, o)
    ensures Blocks(o, Flat(o, bs)) == bs
  {
    forall k | 0 <= k < |bs|
      ensures Blocks(o, Flat(o, bs))[k] == bs[k]
    {
      FlatPrefix(o, bs, k);
      BlockOfOctets(c, o, bs[k]);
      BlockOfSlice(o, Flat(o, bs), 8 * k);
    }
  }

  lemma {:induction false} FlatOfBlocks<W(!new), B(!new)>(c: Key<W>, o: Octets<W, B>, data: seq<B>, k: nat)
    requires Fit(c, o) && 8 * k <= |data|
    ensures Flat(o, Blocks(o, data)[..k]) == data[..8 * k]
  {
    var bs := Blocks(o, data);
    if k > 0 {
      FlatOfBlocks(c, o, data, k - 1);
      FlatPrefix(o, bs, k - 1);
      OctetsOfBlock(c, o, data, 8 * (k - 1));
    }
  }

  // ---------- the modes on blocks ----------

  function Xor<W>(c: Key<W>, a: Block<W>, b: Block<W>): Block<W> {
    Block(c.xor(a.l, b.l), c.xor(a.r, b.r))
  }

  /** The block before the one at k: the initialization vector at first. */
  function Before<W>(iv: Block<W>, bs: seq<Block<W>>, k: nat): Block<W>
    requires k <= |bs|
  {
    if k == 0 then iv else bs[k - 1]
  }

  function Ecb<W>(c: Key<W>, bs: seq<Block<W>>, decrypt: bool): (r: seq<Block<W>>)
    requires |c.p| == 18
    ensures |r| == |bs|
  {
    seq(|bs|, k requires 0 <= k < |bs| => if decrypt then Decipher(c, bs[k]) else Encipher(c, bs[k]))
  }

  /** Each block is chained to the enciphered block before it. */
  function CbcEncrypt<W>(c: Key<W>, iv: Block<W>, bs: seq<Block<W>>): (r: seq<Block<W>>)
    requires |c.p| == 18
    ensures |r| == |bs|
  {
    if bs == [] then []
    else
      var n := |bs| - 1;
      var done := CbcEncrypt(c, iv, bs[..n]);
      done + [Encipher(c, Xor(c, bs[n], Before(iv, done, n)))]
  }

  function CbcDecrypt<W>(c: Key<W>, iv: Block<W>, bs: seq<Block<W>>): (r: seq<Block<W>>)
    requires |c.p| == 18
    ensures |r| == |bs|
  {
    seq(|bs|, k requires 0 <= k < |bs| => Xor(c, Decipher(c, bs[k]), Before(iv, bs, k)))
  }

  function CfbEncrypt<W>(c: Key<W>, iv: Block<W>, bs: seq<Block<W>>): (r: seq<Block<W>>)
    requires |c.p| == 18
    ensures |r| == |bs|
  {
    if bs == [] then []
    else
      var n := |bs| - 1;
      var done := CfbEncrypt(c, iv, bs[..n]);
      done + [Xor(c, Encipher(c, Before(iv, done, n)), bs[n])]
  }

  function CfbDecrypt<W>(c: Key<W>, iv: Block<W>, bs: seq<Block<W>>): (r: seq<Block<W>>)
    requires |c.p| == 18
    ensures |r| == |bs|
  {
    seq(|bs|, k requires 0 <= k < |bs| => Xor(c, Encipher(c, Before(iv, bs, k)), bs[k]))
  }

  /** The vector enciphered k times over. */
  function KeyStream<W>(c: Key<W>, iv: Block<W>, k: nat): Block<W>
    requires |c.p| == 18
  {
    if k == 0 then iv else Encipher(c, KeyStream(c, iv, k - 1))
  }

  function Ofb<W>(c: Key<W>, iv: Block<W>, bs: seq<Block<W>>): (r: seq<Block<W>>)
    requires |c.p| == 18
    ensures |r| == |bs|
  {
    seq(|bs|, k requires 0 <= k < |bs| => Xor(c, KeyStream(c, iv, k + 1), bs[k]))
  }

  // ---------- they invert ----------

  lemma {:induction false} EcbInverts<W(!new)>(c: Key<W>, bs: seq<Block<W>>)
    requires Undoes(c)
    ensures Ecb(c, Ecb(c, bs, false), true) == bs
  {
    forall k | 0 <= k < |bs|
      ensures Ecb(c, Ecb(c, bs, false), true)[k] == bs[k]
    {
      CipherInverts(c, bs[k]);
    }
  }

  lemma {:induction false} LongerAgrees<W>(iv: Block<W>, done: seq<Block<W>>, all: seq<Block<W>>, k: nat)
    requires k < |done| < |all| && all[..|done|] == done
    ensures all[..k] == done[..k] && all[k] == done[k] && Before(iv, all, k) == Before(iv, done, k)
  {
    assert forall i :: 0 <= i < |done| ==> all[i] == all[..|done|][i];
  }

  /** A chained prefix does not depend on what follows. */
  lemma {:induction false} CbcPrefix<W>(c: Key<W>, iv: Block<W>, bs: seq<Block<W>>, k: nat)
    requires |c.p| == 18 && k < |bs|
    ensures CbcEncrypt(c, iv, bs)[..k] == CbcEncrypt(c, iv, bs[..k])
    ensures CbcEncrypt(c, iv, bs)[k] == Encipher(c, Xor(c, bs[k], Before(iv, CbcEncrypt(c, iv, bs), k)))
    decreases |bs|
  {
    var n := |bs| - 1;
    if k < n {
      var done, all := CbcEncrypt(c, iv, bs[..n]), CbcEncrypt(c, iv, bs);
      CbcPrefix(c, iv, bs[..n], k);
      assert bs[..n][..k] == bs[..k] && bs[..n][k] == bs[k];
      LongerAgrees(iv, done, all, k);
    }
  }

  lemma {:induction false} CbcInverts<W(!new)>(c: Key<W>, iv: Block<W>, bs: seq<Block<W>>)
    requires Undoes(c)
    ensures CbcDecrypt(c, iv, CbcEncrypt(c, iv, bs)) == bs
  {
    forall k | 0 <= k < |bs|
      ensures CbcDecrypt(c, iv, CbcEncrypt(c, iv, bs))[k] == bs[k]
    {
      CbcPrefix(c, iv, bs, k);
      CipherInverts(c, Xor(c, bs[k], Before(iv, CbcEncrypt(c, iv, bs), k)));
    }
  }

  lemma {:induction false} CfbPrefix<W>(c: Key<W>, iv: Block<W>, bs: seq<Block<W>>, k: nat)
    requires |c.p| == 18 && k < |bs|
    ensures CfbEncrypt(c, iv, bs)[..k] == CfbEncrypt(c, iv, bs[..k])
    ensures CfbEncrypt(c, iv, bs)[k] == Xor(c, Encipher(c, Before(iv, CfbEncrypt(c, iv, bs), k)), bs[k])
    decreases |bs|
  {
    var n := |bs| - 1;
    if k < n {
      var done, all := CfbEncrypt(c, iv, bs[..n]), CfbEncrypt(c, iv, bs);
      CfbPrefix(c, iv, bs[..n], k);
      assert bs[..n][..k] == bs[..k] && bs[..n][k] == bs[k];
      LongerAgrees(iv, done, all, k);
    }
  }

  // ---------- the modes on buffers of any length ----------

  /** CFB and OFB fill the last block with zeros, and cut the result to the length of the data. */
  function Padded<W, B>(o: Octets<W, B>, data: seq<B>): (r: seq<B>)
    ensures |r| % 8 == 0 && |data| <= |r| < |data| + 8 && r[..|data|] == data
  {
    if |data| % 8 == 0 then data else data + seq(8 - |data| % 8, _ => o.zero)
  }

  /** An octet of the buffer is an octet of its block. */
  lemma {:induction false} OctetOfFlat<W, B>(o: Octets<W, B>, bs: seq<Block<W>>, k: nat, t: nat)
    requires k < |bs| && t < 8
    ensures Flat(o, bs)[8 * k + t] == OctetsOf(o, bs[k])[t]
  {
    FlatPrefix(o, bs, k);
    assert Flat(o, bs)[8 * k..8 * k + 8][t] == Flat(o, bs)[8 * k + t];
  }

  lemma {:induction false} OctetOfXor<W(!new), B(!new)>(c: Key<W>, o: Octets<W, B>, a: Block<W>, b: Block<W>, t: nat)
    requires Fit(c, o) && t < 8
    ensures OctetsOf(o, Xor(c, a, b))[t] == o.xor(OctetsOf(o, a)[t], OctetsOf(o, b)[t])
  {
  }

  /** Two buffers with a common beginning have common blocks as far as it reaches. */
  lemma {:induction false} SameBlocks<W, B>(o: Octets<W, B>, a: seq<B>, b: seq<B>, k: nat)
    requires 8 * k + 8 <= |a| && 8 * k + 8 <= |b| && a[..8 * k + 8] == b[..8 * k + 8]
    ensures Blocks(o, a)[k] == Blocks(o, b)[k]
  {
    assert a[8 * k..8 * k + 8] == a[..8 * k + 8][8 * k..] == b[8 * k..8 * k + 8];
    BlockOfSlice(o, a, 8 * k);
    BlockOfSlice(o, b, 8 * k);
  }

  function CfbBytes<W, B>(c: Key<W>, o: Octets<W, B>, iv: Block<W>, data: seq<B>, decrypt: bool): (r: seq<B>)
    requires |c.p| == 18
    ensures |r| == |data|
  {
    var bs := Blocks(o, Padded(o, data));
    Flat(o, if decrypt then CfbDecrypt(c, iv, bs) else CfbEncrypt(c, iv, bs))[..|data|]
  }

  function OfbBytes<W, B>(c: Key<W>, o: Octets<W, B>, iv: Block<W>, data: seq<B>): (r: seq<B>)
    requires |c.p| == 18
    ensures |r| == |data|
  {
    Flat(o, Ofb(c, iv, Blocks(o, Padded(o, data))))[..|data|]
  }

  /** What cutting a result to its length and filling it again leaves of it. */
  lemma {:induction false} RefilledAgrees<W, B>(o: Octets<W, B>, full: seq<B>, n: nat)
    requires |full| % 8 == 0 && n <= |full| < n + 8
    ensures |Padded(o, full[..n])| == |full| && Padded(o, full[..n])[..n] == full[..n]
  {
  }

  /** An octet of a block of the filled data, under a block of stream. */
  lemma {:induction false} StreamOctet<W(!new), B(!new)>(c: Key<W>, o: Octets<W, B>, stream: Block<W>, data: seq<B>, k: nat, t: nat)
    requires Fit(c, o) && t < 8 && 8 * k + t < |data| && k < |Blocks(o, Padded(o, data))|
    ensures OctetsOf(o, Xor(c, stream, Blocks(o, Padded(o, data))[k]))[t] == o.xor(OctetsOf(o, stream)[t], data[8 * k + t])
  {
    var padded := Padded(o, data);
    OctetOfXor(c, o, stream, Blocks(o, padded)[k], t);
    OctetsOfBlock(c, o, padded, 8 * k);
    assert padded[8 * k..8 * k + 8][t] == padded[8 * k + t] == padded[..|data|][8 * k + t];
  }

  /** The block a position is in. */
  lemma {:induction false} Position<W, B>(o: Octets<W, B>, data: seq<B>, j: nat) returns (k: nat, t: nat)
    requires j < |data|
    ensures t < 8 && j == 8 * k + t && k < |Blocks(o, Padded(o, data))|
  {
    k, t := j / 8, j % 8;
  }

  /** One octet of a decrypted CFB buffer, in the last, cut block too. */
  lemma {:induction false} CfbOctet<W(!new), B(!new)>(c: Key<W>, o: Octets<W, B>, iv: Block<W>, data: seq<B>, k: nat, t: nat)
    requires Fit(c, o) && t < 8 && 8 * k + t < |data| && k < |Blocks(o, Padded(o, data))|
    ensures CfbBytes(c, o, iv, CfbBytes(c, o, iv, data, false), true)[8 * k + t] == data[8 * k + t]
  {
    var bs := Blocks(o, Padded(o, data));
    var es := CfbEncrypt(c, iv, bs);
    var full := Flat(o, es);
    var cut := full[..|data|];
    RefilledAgrees(o, full, |data|);
    var bs' := Blocks(o, Padded(o, cut));
    CutBefore(c, o, iv, data, k);
    CfbPrefix(c, iv, bs, k);
    var stream := Encipher(c, Before(iv, es, k));
    OctetOfFlat(o, CfbDecrypt(c, iv, bs'), k, t);
    StreamOctet(c, o, stream, cut, k, t);
    OctetOfFlat(o, es, k, t);
    StreamOctet(c, o, stream, data, k, t);
  }

  /** The block before a position that cutting keeps is kept whole. */
  lemma {:induction false} CutBefore<W(!new), B(!new)>(c: Key<W>, o: Octets<W, B>, iv: Block<W>, data: seq<B>, k: nat)
    requires Fit(c, o) && 8 * k < |data| && k < |Blocks(o, Padded(o, data))|
    ensures var es := CfbEncrypt(c, iv, Blocks(o, Padded(o, data)));
            var again := Blocks(o, Padded(o, Flat(o, es)[..|data|]));
            |again| == |es| && Before(iv, again, k) == Before(iv, es, k)
  {
    var es := CfbEncrypt(c, iv, Blocks(o, Padded(o, data)));
    var full := Flat(o, es);
    RefilledAgrees(o, full, |data|);
    if k > 0 {
      var again := Padded(o, full[..|data|]);
      assert again[..8 * k] == again[..|data|][..8 * k] == full[..|data|][..8 * k] == full[..8 * k];
      SameBlocks(o, again, full, k - 1);
      BlocksOfFlat(c, o, es);
    }
  }

  /** CFB decryption inverts encryption on every buffer, whatever its length. */
  lemma {:induction false} CfbInverts<W(!new), B(!new)>(c: Key<W>, o: Octets<W, B>, iv: Block<W>, data: seq<B>)
    requires Fit(c, o)
    ensures CfbBytes(c, o, iv, CfbBytes(c, o, iv, data, false), true) == data
  {
    forall j | 0 <= j < |data|
      ensures CfbBytes(c, o, iv, CfbBytes(c, o, iv, data, false), true)[j] == data[j]
    {
      var k, t := Position(o, data, j);
      CfbOctet(c, o, iv, data, k, t);
    }
  }

  /** An octet of an OFB result is the octet of the data and of a stream that does not depend on the data. */
  lemma {:induction false} OfbOctet<W(!new), B(!new)>(c: Key<W>, o: Octets<W, B>, iv: Block<W>, data: seq<B>, k: nat, t: nat)
    requires Fit(c, o) && t < 8 && 8 * k + t < |data| && k < |Blocks(o, Padded(o, data))|
    ensures OfbBytes(c, o, iv, data)[8 * k + t] == o.xor(OctetsOf(o, KeyStream(c, iv, k + 1))[t], data[8 * k + t])
  {
    var bs := Blocks(o, Padded(o, data));
    var out := Ofb(c, iv, bs);
    assert out[k] == Xor(c, KeyStream(c, iv, k + 1), bs[k]);
    OctetOfFlat(o, out, k, t);
    assert OfbBytes(c, o, iv, data)[8 * k + t] == Flat(o, out)[8 * k + t];
    StreamOctet(c, o, KeyStream(c, iv, k + 1), data, k, t);
  }

  /** OFB is its own inverse on every buffer. */
  lemma {:induction false} OfbInverts<W(!new), B(!new)>(c: Key<W>, o: Octets<W, B>, iv: Block<W>, data: seq<B>)
    requires Fit(c, o)
    ensures OfbBytes(c, o, iv, OfbBytes(c, o, iv, data)) == data
  {
    forall j | 0 <= j < |data|
      ensures OfbBytes(c, o, iv, OfbBytes(c, o, iv, data))[j] == data[j]
    {
      OfbOctetBack(c, o, iv, data, j);
    }
  }

  lemma {:induction false} OfbOctetBack<W(!new), B(!new)>(c: Key<W>, o: Octets<W, B>, iv: Block<W>, data: seq<B>, j: nat)
    requires Fit(c, o) && j < |data|
    ensures OfbBytes(c, o, iv, OfbBytes(c, o, iv, data))[j] == data[j]
  {
    var k, t := Position(o, data, j);
    var once := OfbBytes(c, o, iv, data);
    OfbOctet(c, o, iv, data, k, t);
    SameCount(o, data, once);
    OfbOctet(c, o, iv, once, k, t);
    XorTwice(c, o, OctetsOf(o, KeyStream(c, iv, k + 1))[t], data[j]);
  }

  lemma {:induction false} SameCount<W, B>(o: Octets<W, B>, a: seq<B>, b: seq<B>)
    requires |a| == |b|
    ensures |Blocks(o, Padded(o, a))| == |Blocks(o, Padded(o, b))|
  {
  }

  lemma {:induction false} XorTwice<W(!new), B(!new)>(c: Key<W>, o: Octets<W, B>, s: B, x: B)
    requires Fit(c, o)
    ensures o.xor(s, o.xor(s, x)) == x
  {
  }

  function EcbBytes<W, B>(c: Key<W>, o: Octets<W, B>, data: seq<B>, decrypt: bool): seq<B>
    requires |c.p| == 18
  {
    Flat(o, Ecb(c, Blocks(o, data), decrypt))
  }

  function CbcBytes<W, B>(c: Key<W>, o: Octets<W, B>, iv: Block<W>, data: seq<B>, decrypt: bool): seq<B>
    requires |c.p| == 18
  {
    Flat(o, if decrypt then CbcDecrypt(c, iv, Blocks(o, data)) else CbcEncrypt(c, iv, Blocks(o, data)))
  }

  /** ECB and CBC on the whole blocks they accept. */
  lemma {:induction false} EcbAndCbcInvert<W(!new), B(!new)>(c: Key<W>, o: Octets<W, B>, iv: Block<W>, data: seq<B>)
    requires Fit(c, o) && |data| % 8 == 0
    ensures EcbBytes(c, o, EcbBytes(c, o, data, false), true) == data
    ensures CbcBytes(c, o, iv, CbcBytes(c, o, iv, data, false), true) == data
  {
    var bs := Blocks(o, data);
    BlocksOfFlat(c, o, Ecb(c, bs, false));
    EcbInverts(c, bs);
    BlocksOfFlat(c, o, CbcEncrypt(c, iv, bs));
    CbcInverts(c, iv, bs);
    FlatOfBlocks(c, o, data, |data| / 8);
    assert bs[..|data| / 8] == bs;
  }

  // ---------- what each block is ----------

  /** The block before the one at k in a buffer, the vector before the first. */
  function Earlier<W, B>(o: Octets<W, B>, iv: Block<W>, s: seq<B>, k: nat): Block<W>
    requires 8 * k <= |s|
  {
    if k == 0 then iv else BlockAt(o, s, 8 * k - 8)
  }

  lemma {:induction false} BlocksWritten<W(!new), B(!new)>(c: Key<W>, o: Octets<W, B>, bs: seq<Block<W>>, k: nat)
    requires Fit(c, o) && k < |bs|
    ensures |Flat(o, bs)| == 8 * |bs| && BlockAt(o, Flat(o, bs), 8 * k) == bs[k]
  {
    BlocksOfFlat(c, o, bs);
    assert Blocks(o, Flat(o, bs))[k] == BlockAt(o, Flat(o, bs), 8 * k);
  }

  /** Each block of ECB is enciphered, or deciphered, by itself. */
  lemma {:induction false} EcbBlock<W(!new), B(!new)>(c: Key<W>, o: Octets<W, B>, data: seq<B>, k: nat)
    requires Fit(c, o) && |data| % 8 == 0 && 8 * k + 8 <= |data|
    ensures var r := EcbBytes(c, o, data, false); |r| == |data| && BlockAt(o, r, 8 * k) == Encipher(c, BlockAt(o, data, 8 * k))
    ensures var r := EcbBytes(c, o, data, true); |r| == |data| && BlockAt(o, r, 8 * k) == Decipher(c, BlockAt(o, data, 8 * k))
  {
    BlocksWritten(c, o, Ecb(c, Blocks(o, data), false), k);
    BlocksWritten(c, o, Ecb(c, Blocks(o, data), true), k);
  }

  lemma {:induction false} CutBlock<W, B>(o: Octets<W, B>, full: seq<B>, n: nat, i: nat)
    requires i + 8 <= n <= |full|
    ensures BlockAt(o, full[..n], i) == BlockAt(o, full, i)
  {
  }

  lemma {:induction false} EarlierWritten<W(!new), B(!new)>(c: Key<W>, o: Octets<W, B>, iv: Block<W>, bs: seq<Block<W>>, n: nat, k: nat)
    requires Fit(c, o) && k <= |bs| && 8 * k <= n <= 8 * |bs|
    ensures Earlier(o, iv, Flat(o, bs)[..n], k) == Before(iv, bs, k)
  {
    if k > 0 {
      BlocksWritten(c, o, bs, k - 1);
      CutBlock(o, Flat(o, bs), n, 8 * k - 8);
    }
  }

  /** CBC enciphers each block of the data under the block of the result before it. */
  lemma {:induction false} CbcEncryptedBlock<W(!new), B(!new)>(c: Key<W>, o: Octets<W, B>, iv: Block<W>, data: seq<B>, k: nat)
    requires Fit(c, o) && |data| % 8 == 0 && 8 * k + 8 <= |data|
    ensures var r := CbcBytes(c, o, iv, data, false);
            |r| == |data| && BlockAt(o, r, 8 * k) == Encipher(c, Xor(c, BlockAt(o, data, 8 * k), Earlier(o, iv, r, k)))
  {
    var bs := Blocks(o, data);
    var es := CbcEncrypt(c, iv, bs);
    BlocksWritten(c, o, es, k);
    CbcPrefix(c, iv, bs, k);
    EarlierWritten(c, o, iv, es, |data|, k);
    assert Flat(o, es)[..|data|] == Flat(o, es);
  }

  lemma {:induction false} EarlierInData<W, B>(o: Octets<W, B>, iv: Block<W>, data: seq<B>, k: nat)
    requires 8 * k <= |data|
    ensures k <= |Blocks(o, data)| && Earlier(o, iv, data, k) == Before(iv, Blocks(o, data), k)
  {
  }

  /** And back, each is deciphered and freed of the block of the data before it. */
  lemma {:induction false} CbcDecryptedBlock<W(!new), B(!new)>(c: Key<W>, o: Octets<W, B>, iv: Block<W>, data: seq<B>, k: nat)
    requires Fit(c, o) && |data| % 8 == 0 && 8 * k + 8 <= |data|
    ensures var r := CbcBytes(c, o, iv, data, true);
            |r| == |data| && BlockAt(o, r, 8 * k) == Xor(c, Decipher(c, BlockAt(o, data, 8 * k)), Earlier(o, iv, data, k))
  {
    var bs := Blocks(o, data);
    var ds := CbcDecrypt(c, iv, bs);
    BlocksWritten(c, o, ds, k);
    EarlierInData(o, iv, data, k);
    assert bs[k] == BlockAt(o, data, 8 * k) && ds[k] == Xor(c, Decipher(c, bs[k]), Before(iv, bs, k));
  }

  /** Each octet of a CFB result, in the cut last block too, is that of the data under the enciphered block before it:
      of the result when encrypting, of the data when decrypting. */
  lemma {:induction false} CfbEncryptedOctet<W(!new), B(!new)>(c: Key<W>, o: Octets<W, B>, iv: Block<W>, data: seq<B>, k: nat, t: nat)
    requires Fit(c, o) && t < 8 && 8 * k + t < |data|
    ensures var r := CfbBytes(c, o, iv, data, false);
            r[8 * k + t] == o.xor(OctetsOf(o, Encipher(c, Earlier(o, iv, r, k)))[t], data[8 * k + t])
  {
    var bs := Blocks(o, Padded(o, data));
    var es := CfbEncrypt(c, iv, bs);
    CfbPrefix(c, iv, bs, k);
    EarlierWritten(c, o, iv, es, |data|, k);
    OctetOfFlat(o, es, k, t);
    StreamOctet(c, o, Encipher(c, Before(iv, es, k)), data, k, t);
  }

  lemma {:induction false} EarlierOfPadded<W, B>(o: Octets<W, B>, iv: Block<W>, data: seq<B>, k: nat)
    requires 8 * k <= |data|
    ensures k <= |Blocks(o, Padded(o, data))| && Earlier(o, iv, data, k) == Before(iv, Blocks(o, Padded(o, data)), k)
  {
    if k > 0 {
      CutBlock(o, Padded(o, data), |data|, 8 * k - 8);
    }
  }

  lemma {:induction false} CfbDecryptedOctet<W(!new), B(!new)>(c: Key<W>, o: Octets<W, B>, iv: Block<W>, data: seq<B>, k: nat, t: nat)
    requires Fit(c, o) && t < 8 && 8 * k + t < |data|
    ensures CfbBytes(c, o, iv, data, true)[8 * k + t] == o.xor(OctetsOf(o, Encipher(c, Earlier(o, iv, data, k)))[t], data[8 * k + t])
  {
    var bs := Blocks(o, Padded(o, data));
    EarlierOfPadded(o, iv, data, k);
    OctetOfFlat(o, CfbDecrypt(c, iv, bs), k, t);
    StreamOctet(c, o, Encipher(c, Before(iv, bs, k)), data, k, t);
  }

  // ---------- the loops ----------

  /** Names the block of a turn of a loop, so that what holds of each block is used for that one alone. */
  predicate Turn(k: int) { true }

  /** The blocks that data is read as. */
  predicate Cut<W(==), B>(o: Octets<W, B>, data: seq<B>, bs: seq<Block<W>>) {
    |data| == 8 * |bs| && forall k {:trigger Turn(k)} :: Turn(k) && 0 <= k < |bs| ==> bs[k] == BlockAt(o, data, 8 * k)
  }

  /** The blocks that result is written as. */
  predicate Laid<W, B(==)>(o: Octets<W, B>, result: seq<B>, spec: seq<Block<W>>) {
    |result| == 8 * |spec| && forall k {:trigger Turn(k)} :: Turn(k) && 0 <= k < |spec| ==> result[8 * k..8 * k + 8] == OctetsOf(o, spec[k])
  }

  predicate EcbTurns<W(==)>(c: Key<W>, bs: seq<Block<W>>, spec: seq<Block<W>>, decrypt: bool)
    requires |c.p| == 18
  {
    |spec| == |bs| && forall k {:trigger Turn(k)} :: Turn(k) && 0 <= k < |bs| ==>
      spec[k] == if decrypt then Decipher(c, bs[k]) else Encipher(c, bs[k])
  }

  predicate CbcTurns<W(==)>(c: Key<W>, iv: Block<W>, bs: seq<Block<W>>, spec: seq<Block<W>>, decrypt: bool)
    requires |c.p| == 18
  {
    |spec| == |bs| && forall k {:trigger Turn(k)} :: Turn(k) && 0 <= k < |bs| ==>
      spec[k] == if decrypt then Xor(c, Decipher(c, bs[k]), Before(iv, bs, k)) else Encipher(c, Xor(c, bs[k], Before(iv, spec, k)))
  }

  predicate CfbTurns<W(==)>(c: Key<W>, iv: Block<W>, bs: seq<Block<W>>, spec: seq<Block<W>>, decrypt: bool)
    requires |c.p| == 18
  {
    |spec| == |bs| && forall k {:trigger Turn(k)} :: Turn(k) && 0 <= k < |bs| ==>
      spec[k] == Xor(c, Encipher(c, Before(iv, if decrypt then bs else spec, k)), bs[k])
  }

  /** stream is the vector enciphered over and over. */
  predicate OfbTurns<W(==)>(c: Key<W>, iv: Block<W>, bs: seq<Block<W>>, spec: seq<Block<W>>, stream: seq<Block<W>>)
    requires |c.p| == 18
  {
    && |spec| == |bs| && |stream| == |bs| + 1 && stream[0] == iv
    && forall k {:trigger Turn(k)} :: Turn(k) && 0 <= k < |bs| ==>
         stream[k + 1] == Encipher(c, stream[k]) && spec[k] == Xor(c, stream[k + 1], bs[k])
  }

  lemma {:induction false} EcbTurnByTurn<W>(c: Key<W>, bs: seq<Block<W>>, decrypt: bool)
    requires |c.p| == 18
    ensures EcbTurns(c, bs, Ecb(c, bs, decrypt), decrypt)
  {
  }

  lemma {:induction false} CbcTurnByTurn<W>(c: Key<W>, iv: Block<W>, bs: seq<Block<W>>)
    requires |c.p| == 18
    ensures CbcTurns(c, iv, bs, CbcDecrypt(c, iv, bs), true) && CbcTurns(c, iv, bs, CbcEncrypt(c, iv, bs), false)
  {
    forall k | Turn(k) && 0 <= k < |bs|
      ensures CbcEncrypt(c, iv, bs)[k] == Encipher(c, Xor(c, bs[k], Before(iv, CbcEncrypt(c, iv, bs), k)))
    {
      CbcPrefix(c, iv, bs, k);
    }
  }

  lemma {:induction false} CfbTurnByTurn<W>(c: Key<W>, iv: Block<W>, bs: seq<Block<W>>)
    requires |c.p| == 18
    ensures CfbTurns(c, iv, bs, CfbDecrypt(c, iv, bs), true) && CfbTurns(c, iv, bs, CfbEncrypt(c, iv, bs), false)
  {
    forall k | Turn(k) && 0 <= k < |bs|
      ensures CfbEncrypt(c, iv, bs)[k] == Xor(c, Encipher(c, Before(iv, CfbEncrypt(c, iv, bs), k)), bs[k])
    {
      CfbPrefix(c, iv, bs, k);
    }
  }

  lemma {:induction false} OfbTurnByTurn<W>(c: Key<W>, iv: Block<W>, bs: seq<Block<W>>) returns (stream: seq<Block<W>>)
    requires |c.p| == 18
    ensures OfbTurns(c, iv, bs, Ofb(c, iv, bs), stream)
  {
    stream := seq(|bs| + 1, k requires 0 <= k <= |bs| => KeyStream(c, iv, k));
  }

  lemma {:induction false} BlocksAreCut<W, B>(o: Octets<W, B>, data: seq<B>)
    requires |data| % 8 == 0
    ensures Cut(o, data, Blocks(o, data))
  {
  }

  lemma {:induction false} FlatIsLaid<W, B>(o: Octets<W, B>, spec: seq<Block<W>>)
    ensures Laid(o, Flat(o, spec), spec)
  {
    forall k | Turn(k) && 0 <= k < |spec|
      ensures Flat(o, spec)[8 * k..8 * k + 8] == OctetsOf(o, spec[k])
    {
      FlatPrefix(o, spec, k);
    }
  }

  /** Two writeInt32BE: the next block of the result. */
  method WriteBlock<W, B>(o: Octets<W, B>, r: array<B>, i: nat, L: W, R: W, ghost result: seq<B>)
    requires i + 8 <= r.Length == |result| && r[..i] == result[..i] && result[i..i + 8] == OctetsOf(o, Block(L, R))
    modifies r
    ensures r[..i + 8] == result[..i + 8] && r[i + 8..] == old(r[i + 8..])
  {
    r[i], r[i + 1], r[i + 2], r[i + 3] := o.octet(L, 0), o.octet(L, 1), o.octet(L, 2), o.octet(L, 3);
    r[i + 4], r[i + 5], r[i + 6], r[i + 7] := o.octet(R, 0), o.octet(R, 1), o.octet(R, 2), o.octet(R, 3);
    assert r[i..i + 8] == OctetsOf(o, Block(L, R));
    assert r[..i + 8] == r[..i] + r[i..i + 8] && result[..i + 8] == result[..i] + result[i..i + 8];
  }

  /** Two readInt32BE, from data whose part before i may have been written over. */
  method ReadBlock<W, B>(o: Octets<W, B>, r: array<B>, i: nat, ghost data: seq<B>) returns (L: W, R: W)
    requires i + 8 <= r.Length == |data| && r[i..] == data[i..]
    ensures Block(L, R) == BlockAt(o, data, i)
  {
    assert forall t :: i <= t < |data| ==> r[t] == r[i..][t - i] == data[i..][t - i] == data[t];
    L := o.word(r[i], r[i + 1], r[i + 2], r[i + 3]);
    R := o.word(r[i + 4], r[i + 5], r[i + 6], r[i + 7]);
  }

  /** A buffer of the data's own, to read from or to work on in place. */
  method Copy<W, B>(o: Octets<W, B>, data: seq<B>) returns (r: array<B>)
    ensures fresh(r) && r[..] == data
  {
    r := new B[|data|](i requires 0 <= i < |data| => data[i]);
  }

  lemma {:induction false} DropMore<B>(a: seq<B>, b: seq<B>, i: nat)
    requires i + 8 <= |a| == |b| && a[i..] == b[i..]
    ensures a[i + 8..] == b[i + 8..]
  {
    assert a[i + 8..] == a[i..][8..] && b[i + 8..] == b[i..][8..];
  }

  /** The initialization vector of a call, as a block. */
  function Vector<W, B>(o: Octets<W, B>, iv: seq<B>): Block<W>
    requires |iv| == 8
  {
    BlockAt(o, iv, 0)
  }

  /** blfECB; None is its RangeError. */
  method EcbCipher<W, B>(c: Key<W>, o: Octets<W, B>, data: seq<B>, decrypt: bool) returns (out: Option<seq<B>>)
    requires |c.p| == 18
    ensures out == if |data| % 8 != 0 then None else Some(EcbBytes(c, o, data, decrypt))
  {
    if |data| % 8 != 0 { return None; }
    var input := Copy(o, data);
    var r := Copy(o, seq(|data|, _ => o.zero));
    ghost var spec := Ecb(c, Blocks(o, data), decrypt);
    BlocksAreCut(o, data);
    FlatIsLaid(o, spec);
    EcbTurnByTurn(c, Blocks(o, data), decrypt);
    EcbLoop(c, o, input, r, decrypt, data, Blocks(o, data), spec, Flat(o, spec));
    out := Some(r[..]);
  }

  method EcbLoop<W, B>(c: Key<W>, o: Octets<W, B>, input: array<B>, r: array<B>, decrypt: bool,
                       ghost data: seq<B>, ghost bs: seq<Block<W>>, ghost spec: seq<Block<W>>, ghost result: seq<B>)
    requires |c.p| == 18 && input != r && input[..] == data && r.Length == |data|
    requires Cut(o, data, bs) && Laid(o, result, spec) && EcbTurns(c, bs, spec, decrypt)
    modifies r
    ensures r[..] == result
  {
    ghost var k := 0;
    var i := 0;
    while i < input.Length
      invariant i == 8 * k && k <= |bs| && input[..] == data && r[..i] == result[..i]
    {
      var L, R := ReadBlock(o, input, i, data);
      assert Turn(k);
      assert Block(L, R) == bs[k];
      if decrypt {
        L, R := DecipherBlock(c, L, R);
      } else {
        L, R := EncipherBlock(c, L, R);
      }
      assert Block(L, R) == spec[k];
      WriteBlock(o, r, i, L, R, result);
      i, k := i + 8, k + 1;
    }
    assert r[..] == r[..i] == result[..i] == result;
  }

  /** blfCBC; None is either RangeError. */
  method CbcCipher<W, B>(c: Key<W>, o: Octets<W, B>, iv: seq<B>, data: seq<B>, decrypt: bool) returns (out: Option<seq<B>>)
    requires |c.p| == 18
    ensures out == if |iv| != 8 || |data| % 8 != 0 then None else Some(CbcBytes(c, o, Vector(o, iv), data, decrypt))
  {
    if |iv| != 8 || |data| % 8 != 0 { return None; }
    var input := Copy(o, data);
    var r := Copy(o, seq(|data|, _ => o.zero));
    var first := Vector(o, iv);
    ghost var bs := Blocks(o, data);
    BlocksAreCut(o, data);
    CbcTurnByTurn(c, first, bs);
    if decrypt {
      ghost var spec := CbcDecrypt(c, first, bs);
      FlatIsLaid(o, spec);
      CbcDecipher(c, o, first, input, r, data, bs, spec, Flat(o, spec));
    } else {
      ghost var spec := CbcEncrypt(c, first, bs);
      FlatIsLaid(o, spec);
      CbcEncipher(c, o, first, input, r, data, bs, spec, Flat(o, spec));
    }
    out := Some(r[..]);
  }

  /** The loop of blfCBC that decrypts. */
  method CbcDecipher<W, B>(c: Key<W>, o: Octets<W, B>, iv: Block<W>, input: array<B>, r: array<B>,
                           ghost data: seq<B>, ghost bs: seq<Block<W>>, ghost spec: seq<Block<W>>, ghost result: seq<B>)
    requires |c.p| == 18 && input != r && input[..] == data && r.Length == |data|
    requires Cut(o, data, bs) && Laid(o, result, spec) && CbcTurns(c, iv, bs, spec, true)
    modifies r
    ensures r[..] == result
  {
    ghost var k := 0;
    var LL, RR, i := iv.l, iv.r, 0;
    while i < input.Length
      invariant i == 8 * k && k <= |bs| && input[..] == data && r[..i] == result[..i]
      invariant Block(LL, RR) == Before(iv, bs, k)
    {
      var L, R := ReadBlock(o, input, i, data);
      assert Turn(k);
      assert Block(L, R) == bs[k];
      var LLL, RRR := DecipherBlock(c, L, R);
      LLL, RRR := c.xor(LLL, LL), c.xor(RRR, RR);
      assert Block(LLL, RRR) == spec[k];
      WriteBlock(o, r, i, LLL, RRR, result);
      LL, RR := L, R;
      i, k := i + 8, k + 1;
    }
    assert r[..] == r[..i] == result[..i] == result;
  }

  /** The loop of blfCBC that encrypts. */
  method CbcEncipher<W, B>(c: Key<W>, o: Octets<W, B>, iv: Block<W>, input: array<B>, r: array<B>,
                           ghost data: seq<B>, ghost bs: seq<Block<W>>, ghost spec: seq<Block<W>>, ghost result: seq<B>)
    requires |c.p| == 18 && input != r && input[..] == data && r.Length == |data|
    requires Cut(o, data, bs) && Laid(o, result, spec) && CbcTurns(c, iv, bs, spec, false)
    modifies r
    ensures r[..] == result
  {
    ghost var k := 0;
    var L, R, i := iv.l, iv.r, 0;
    while i < input.Length
      invariant i == 8 * k && k <= |bs| && input[..] == data && r[..i] == result[..i]
      invariant Block(L, R) == Before(iv, spec, k)
    {
      var dl, dr := ReadBlock(o, input, i, data);
      assert Turn(k);
      assert Block(dl, dr) == bs[k];
      L, R := c.xor(dl, L), c.xor(dr, R);
      L, R := EncipherBlock(c, L, R);
      assert Block(L, R) == spec[k];
      WriteBlock(o, r, i, L, R, result);
      i, k := i + 8, k + 1;
    }
    assert r[..] == r[..i] == result[..i] == result;
  }

  /** blfCFB, in place on its copy; None is its RangeError. */
  method CfbCipher<W, B>(c: Key<W>, o: Octets<W, B>, iv: seq<B>, data: seq<B>, decrypt: bool) returns (out: Option<seq<B>>)
    requires |c.p| == 18
    ensures out == if |iv| != 8 then None else Some(CfbBytes(c, o, Vector(o, iv), data, decrypt))
  {
    if |iv| != 8 { return None; }
    var r := Copy(o, Padded(o, data));
    var first := Vector(o, iv);
    ghost var padded := Padded(o, data);
    ghost var bs := Blocks(o, padded);
    BlocksAreCut(o, padded);
    CfbTurnByTurn(c, first, bs);
    if decrypt {
      ghost var spec := CfbDecrypt(c, first, bs);
      FlatIsLaid(o, spec);
      CfbDecipher(c, o, first, r, padded, bs, spec, Flat(o, spec));
    } else {
      ghost var spec := CfbEncrypt(c, first, bs);
      FlatIsLaid(o, spec);
      CfbEncipher(c, o, first, r, padded, bs, spec, Flat(o, spec));
    }
    out := Some(r[..|data|]);
  }

  /** The loop of blfCFB that decrypts. */
  method CfbDecipher<W, B>(c: Key<W>, o: Octets<W, B>, first: Block<W>, r: array<B>,
                           ghost padded: seq<B>, ghost bs: seq<Block<W>>, ghost spec: seq<Block<W>>, ghost result: seq<B>)
    requires |c.p| == 18 && r[..] == padded && Cut(o, padded, bs) && Laid(o, result, spec)
    requires CfbTurns(c, first, bs, spec, true)
    modifies r
    ensures r[..] == result
  {
    ghost var k := 0;
    var L, R, i := first.l, first.r, 0;
    while i < r.Length
      invariant i == 8 * k && k <= |bs| && r[..i] == result[..i] && r[i..] == padded[i..]
      invariant Block(L, R) == Before(first, bs, k)
    {
      var LL, RR := ReadBlock(o, r, i, padded);
      assert Turn(k);
      assert Block(LL, RR) == bs[k];
      L, R := EncipherBlock(c, L, R);
      L, R := c.xor(L, LL), c.xor(R, RR);
      assert Block(L, R) == spec[k];
      DropMore(r[..], padded, i);
      WriteBlock(o, r, i, L, R, result);
      L, R := LL, RR;
      i, k := i + 8, k + 1;
    }
    assert r[..] == r[..i] == result[..i] == result;
  }

  lemma {:induction false} CfbTurnAt<W, B>(c: Key<W>, o: Octets<W, B>, first: Block<W>, padded: seq<B>, bs: seq<Block<W>>,
                                           spec: seq<Block<W>>, result: seq<B>, k: nat)
    requires |c.p| == 18 && Cut(o, padded, bs) && Laid(o, result, spec) && CfbTurns(c, first, bs, spec, false) && k < |bs|
    ensures 8 * k + 8 <= |padded| == |result| && |spec| == |bs|
    ensures result[8 * k..8 * k + 8] == OctetsOf(o, spec[k])
    ensures spec[k] == Xor(c, Encipher(c, Before(first, spec, k)), BlockAt(o, padded, 8 * k))
  {
    assert Turn(k);
  }

  /** One turn of the loop below. */
  method CfbEncipherTurn<W, B>(c: Key<W>, o: Octets<W, B>, L: W, R: W, r: array<B>, i: nat, ghost padded: seq<B>, ghost result: seq<B>)
    returns (L': W, R': W)
    requires |c.p| == 18 && i + 8 <= r.Length == |padded| == |result| && r[..i] == result[..i] && r[i..] == padded[i..]
    requires result[i..i + 8] == OctetsOf(o, Xor(c, Encipher(c, Block(L, R)), BlockAt(o, padded, i)))
    modifies r
    ensures Block(L', R') == Xor(c, Encipher(c, Block(L, R)), BlockAt(o, padded, i))
    ensures r[..i + 8] == result[..i + 8] && r[i + 8..] == padded[i + 8..]
  {
    var dl, dr := ReadBlock(o, r, i, padded);
    L', R' := EncipherBlock(c, L, R);
    L', R' := c.xor(L', dl), c.xor(R', dr);
    DropMore(r[..], padded, i);
    WriteBlock(o, r, i, L', R', result);
  }

  /** The loop of blfCFB that encrypts. */
  method CfbEncipher<W, B>(c: Key<W>, o: Octets<W, B>, first: Block<W>, r: array<B>,
                           ghost padded: seq<B>, ghost bs: seq<Block<W>>, ghost spec: seq<Block<W>>, ghost result: seq<B>)
    requires |c.p| == 18 && r[..] == padded && Cut(o, padded, bs) && Laid(o, result, spec)
    requires CfbTurns(c, first, bs, spec, false)
    modifies r
    ensures r[..] == result
  {
    ghost var k := 0;
    var L, R, i := first.l, first.r, 0;
    while i < r.Length
      invariant i == 8 * k && k <= |bs| && r[..i] == result[..i] && r[i..] == padded[i..]
      invariant Block(L, R) == Before(first, spec, k)
    {
      CfbTurnAt(c, o, first, padded, bs, spec, result, k);
      L, R := CfbEncipherTurn(c, o, L, R, r, i, padded, result);
      i, k := i + 8, k + 1;
    }
    assert r[..] == r[..i] == result[..i] == result;
  }

  /** blfOFB, in place on its copy; None is its RangeError. */
  method OfbCipher<W, B>(c: Key<W>, o: Octets<W, B>, iv: seq<B>, data: seq<B>) returns (out: Option<seq<B>>)
    requires |c.p| == 18
    ensures out == if |iv| != 8 then None else Some(OfbBytes(c, o, Vector(o, iv), data))
  {
    if |iv| != 8 { return None; }
    var r := Copy(o, Padded(o, data));
    var first := Vector(o, iv);
    ghost var padded := Padded(o, data);
    ghost var spec := Ofb(c, first, Blocks(o, padded));
    BlocksAreCut(o, padded);
    FlatIsLaid(o, spec);
    ghost var stream := OfbTurnByTurn(c, first, Blocks(o, padded));
    OfbLoop(c, o, first, r, padded, Blocks(o, padded), spec, Flat(o, spec), stream);
    out := Some(r[..|data|]);
  }

  method OfbLoop<W, B>(c: Key<W>, o: Octets<W, B>, first: Block<W>, r: array<B>,
                       ghost padded: seq<B>, ghost bs: seq<Block<W>>, ghost spec: seq<Block<W>>, ghost result: seq<B>,
                       ghost stream: seq<Block<W>>)
    requires |c.p| == 18 && r[..] == padded && Cut(o, padded, bs) && Laid(o, result, spec)
    requires OfbTurns(c, first, bs, spec, stream)
    modifies r
    ensures r[..] == result
  {
    ghost var k := 0;
    var L, R, i := first.l, first.r, 0;
    while i < r.Length
      invariant i == 8 * k && k <= |bs| && r[..i] == result[..i] && r[i..] == padded[i..]
      invariant Block(L, R) == stream[k]
    {
      var dl, dr := ReadBlock(o, r, i, padded);
      assert Turn(k);
      assert Block(dl, dr) == bs[k];
      L, R := EncipherBlock(c, L, R);
      var LL, RR := c.xor(L, dl), c.xor(R, dr);
      assert Block(LL, RR) == spec[k];
      DropMore(r[..], padded, i);
      WriteBlock(o, r, i, LL, RR, result);
      i, k := i + 8, k + 1;
    }
    assert r[..] == r[..i] == result[..i] == result;
  }
}
