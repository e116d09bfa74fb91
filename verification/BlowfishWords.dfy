/** The machine words of the cipher: 32-bit words of four octets, and the S-box mixing of blfRound. */
module BlowfishWords {
  import opened Prelude
  import opened Blowfish
  import opened CipherModes

  function Word(a: bv8, b: bv8, c: bv8, d: bv8): bv32 {
    (a as bv32 << 24) | (b as bv32 << 16) | (c as bv32 << 8) | (d as bv32)
  }

  function Octet(w: bv32, t: nat): bv8 {
    if t == 0 then ((w >> 24) & 255) as bv8
    else if t == 1 then ((w >> 16) & 255) as bv8
    else if t == 2 then ((w >> 8) & 255) as bv8
    else (w & 255) as bv8
  }

  function Xor32(a: bv32, b: bv32): bv32 { a ^ b }

  function Xor8(a: bv8, b: bv8): bv8 { a ^ b }

  /** The four S-boxes, each a table of 256 words. */
  datatype Boxes = Boxes(s0: bv8 -> bv32, s1: bv8 -> bv32, s2: bv8 -> bv32, s3: bv8 -> bv32)

  /** How blfRound joins the four words; additions wrap at 32 bits. */
  function Combine(p: bv32, q: bv32, r: bv32, t: bv32): bv32 {
    ((p + q) ^ r) + t
  }

  /** The part of blfRound before the word of P. */
  function Mix(s: Boxes, x: bv32): bv32 {
    Combine(s.s0(Octet(x, 0)), s.s1(Octet(x, 1)), s.s2(Octet(x, 2)), s.s3(Octet(x, 3)))
  }

  /** The sum of the last word and of the exclusive or of the third with the sum of the first two. */
  lemma {:induction false} CombineIsSum(p: bv32, q: bv32, r: bv32, t: bv32)
    ensures Combine(p, q, r, t) == t + (r ^ (q + p))
  {
  }

  /** A word is its four octets, the first the highest; on 32-bit words + and * wrap. */
  lemma {:induction false} WordIsSum(a: bv8, b: bv8, d: bv8, e: bv8)
    ensures Word(a, b, d, e) == a as bv32 * 0x100_0000 + b as bv32 * 0x1_0000 + d as bv32 * 0x100 + e as bv32
  {
  }

  /** Which octet goes to which box. */
  lemma {:induction false} MixOfOctets(s: Boxes, a: bv8, b: bv8, d: bv8, e: bv8)
    ensures Mix(s, Word(a, b, d, e)) == Combine(s.s0(a), s.s1(b), s.s2(d), s.s3(e))
  {
    OctetsOfWord(a, b, d, e);
  }

  function KeyOf(p: seq<bv32>, s: Boxes): Key<bv32> {
    Key(p, x => Mix(s, x), Xor32)
  }

  const OCTETS: Octets<bv32, bv8> := Octets(Word, Octet, Xor8, 0)

  lemma {:induction false} Xor32Undoes(a: bv32, b: bv32)
    ensures Xor32(Xor32(a, b), b) == a && Xor32(a, Xor32(a, b)) == b
  {
  }

  lemma {:induction false} Xor32Associates(a: bv32, b: bv32, d: bv32)
    ensures Xor32(Xor32(a, b), d) == Xor32(a, Xor32(b, d))
  {
  }

  lemma {:induction false} Xor8Undoes(a: bv8, b: bv8)
    ensures Xor8(a, Xor8(a, b)) == b
  {
  }

  lemma {:induction false} WordOfOctets(w: bv32)
    ensures Word(Octet(w, 0), Octet(w, 1), Octet(w, 2), Octet(w, 3)) == w
  {
  }

  lemma {:induction false} OctetsOfWord(a: bv8, b: bv8, d: bv8, e: bv8)
    ensures var w := Word(a, b, d, e); Octet(w, 0) == a && Octet(w, 1) == b && Octet(w, 2) == d && Octet(w, 3) == e
  {
  }

  lemma {:induction false} TopOfXor(v: bv32, w: bv32)
    ensures ((v ^ w) >> 24) & 255 == ((v >> 24) & 255) ^ ((w >> 24) & 255)
    ensures ((v ^ w) >> 16) & 255 == ((v >> 16) & 255) ^ ((w >> 16) & 255)
  {
  }

  lemma {:induction false} BottomOfXor(v: bv32, w: bv32)
    ensures ((v ^ w) >> 8) & 255 == ((v >> 8) & 255) ^ ((w >> 8) & 255)
    ensures (v ^ w) & 255 == (v & 255) ^ (w & 255)
  {
  }

  lemma {:induction false} NarrowXor(x: bv32, y: bv32)
    requires x < 256 && y < 256 && x ^ y < 256
    ensures (x ^ y) as bv8 == (x as bv8) ^ (y as bv8)
  {
  }

  lemma {:induction false} SmallXor(x: bv32, y: bv32)
    requires x < 256 && y < 256
    ensures x ^ y < 256
  {
  }

  lemma {:induction false} FirstOctetOfXor(v: bv32, w: bv32)
    ensures Octet(Xor32(v, w), 0) == Xor8(Octet(v, 0), Octet(w, 0))
  {
    var x, y := (v >> 24) & 255, (w >> 24) & 255;
    TopOfXor(v, w);
    SmallXor(x, y);
    NarrowXor(x, y);
  }

  lemma {:induction false} SecondOctetOfXor(v: bv32, w: bv32)
    ensures Octet(Xor32(v, w), 1) == Xor8(Octet(v, 1), Octet(w, 1))
  {
    var x, y := (v >> 16) & 255, (w >> 16) & 255;
    TopOfXor(v, w);
    SmallXor(x, y);
    NarrowXor(x, y);
  }

  lemma {:induction false} ThirdOctetOfXor(v: bv32, w: bv32)
    ensures Octet(Xor32(v, w), 2) == Xor8(Octet(v, 2), Octet(w, 2))
  {
    var x, y := (v >> 8) & 255, (w >> 8) & 255;
    BottomOfXor(v, w);
    SmallXor(x, y);
    NarrowXor(x, y);
  }

  lemma {:induction false} LastOctetOfXor(v: bv32, w: bv32)
    ensures Octet(Xor32(v, w), 3) == Xor8(Octet(v, 3), Octet(w, 3))
  {
    var x, y := v & 255, w & 255;
    BottomOfXor(v, w);
    SmallXor(x, y);
    NarrowXor(x, y);
  }

  lemma {:induction false} OctetsOfXor(v: bv32, w: bv32, t: nat)
    ensures Octet(Xor32(v, w), t) == Xor8(Octet(v, t), Octet(w, t))
  {
    if t == 0 { FirstOctetOfXor(v, w); }
    else if t == 1 { SecondOctetOfXor(v, w); }
    else if t == 2 { ThirdOctetOfXor(v, w); }
    else { LastOctetOfXor(v, w); }
  }

  lemma {:induction false} WordsFit()
    ensures forall w :: Word(Octet(w, 0), Octet(w, 1), Octet(w, 2), Octet(w, 3)) == w
    ensures forall a, b, d, e :: var w := Word(a, b, d, e); Octet(w, 0) == a && Octet(w, 1) == b && Octet(w, 2) == d && Octet(w, 3) == e
  {
    forall w ensures Word(Octet(w, 0), Octet(w, 1), Octet(w, 2), Octet(w, 3)) == w { WordOfOctets(w); }
    forall a, b, d, e
      ensures var w := Word(a, b, d, e); Octet(w, 0) == a && Octet(w, 1) == b && Octet(w, 2) == d && Octet(w, 3) == e
    {
      OctetsOfWord(a, b, d, e);
    }
  }

  lemma {:induction false} XorsFit()
    ensures forall a, b :: Xor32(Xor32(a, b), b) == a
    ensures forall a, b :: Xor32(a, Xor32(a, b)) == b
    ensures forall a, b, d :: Xor32(Xor32(a, b), d) == Xor32(a, Xor32(b, d))
    ensures forall a, b :: Xor8(a, Xor8(a, b)) == b
  {
    forall a, b ensures Xor32(Xor32(a, b), b) == a && Xor32(a, Xor32(a, b)) == b { Xor32Undoes(a, b); }
    forall a, b, d ensures Xor32(Xor32(a, b), d) == Xor32(a, Xor32(b, d)) { Xor32Associates(a, b, d); }
    forall a, b ensures Xor8(a, Xor8(a, b)) == b { Xor8Undoes(a, b); }
  }

  lemma {:induction false} OctetsFit()
    ensures forall v, w, t: nat :: Octet(Xor32(v, w), t) == Xor8(Octet(v, t), Octet(w, t))
  {
    forall v, w, t: nat ensures Octet(Xor32(v, w), t) == Xor8(Octet(v, t), Octet(w, t)) { OctetsOfXor(v, w, t); }
  }

  /** Every key of 18 words and any four S-boxes is one the theorems speak of. */
  lemma {:induction false} EveryKeyIsLawful(p: seq<bv32>, s: Boxes)
    requires |p| == 18
    ensures Lawful(KeyOf(p, s)) && Fit(KeyOf(p, s), OCTETS)
  {
    WordsFit();
    XorsFit();
    OctetsFit();
  }

  /** For every key: block decryption inverts encryption, and so does each mode on every buffer it accepts. */
  lemma {:induction false} BlowfishInverts(p: seq<bv32>, s: Boxes, b: Block<bv32>, iv: Block<bv32>, data: seq<bv8>)
    requires |p| == 18
    ensures var c := KeyOf(p, s);
            && Decipher(c, Encipher(c, b)) == b
            && Encipher(c, b) == Textbook(c, b)
            && CfbBytes(c, OCTETS, iv, CfbBytes(c, OCTETS, iv, data, false), true) == data
            && OfbBytes(c, OCTETS, iv, OfbBytes(c, OCTETS, iv, data)) == data
            && (|data| % 8 == 0 ==> EcbBytes(c, OCTETS, EcbBytes(c, OCTETS, data, false), true) == data)
            && (|data| % 8 == 0 ==> CbcBytes(c, OCTETS, iv, CbcBytes(c, OCTETS, iv, data, false), true) == data)
  {
    var c := KeyOf(p, s);
    EveryKeyIsLawful(p, s);
    CipherInverts(c, b);
    CipherIsTextbook(c, b);
    CfbInverts(c, OCTETS, iv, data);
    OfbInverts(c, OCTETS, iv, data);
    if |data| % 8 == 0 {
      EcbAndCbcInvert(c, OCTETS, iv, data);
    }
  }
}
