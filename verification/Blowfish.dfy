/** The Blowfish block cipher: a Feistel network over words with an exclusive or, for any key tables. */
module Blowfish {
  /** The state of a key: 18 words of P, the mixing of a word through the four S-boxes, and the exclusive or of words. */
  datatype Key<!W> = Key(p: seq<W>, mix: W -> W, xor: (W, W) -> W)

  ghost predicate Undoes<W(!new)>(c: Key<W>) {
    |c.p| == 18 && (forall a, b :: c.xor(c.xor(a, b), b) == a) && (forall a, b :: c.xor(a, c.xor(a, b)) == b)
  }

  ghost predicate Lawful<W(!new)>(c: Key<W>) {
    && Undoes(c)
    && (forall a, b, d :: c.xor(c.xor(a, b), d) == c.xor(a, c.xor(b, d)))
  }

  /** Two halves of a block. */
  datatype Block<W> = Block(l: W, r: W)

  /** blfRound */
  function Round<W>(c: Key<W>, x: W, n: nat): W
    requires n < |c.p|
  {
    c.xor(c.mix(x), c.p[n])
  }

  /** The halves after k passes of the enciphering loop. */
  function Enciphering<W>(c: Key<W>, b: Block<W>, k: nat): Block<W>
    requires |c.p| == 18 && k <= 8
  {
    if k == 0 then Block(c.xor(b.l, c.p[0]), b.r)
    else
      var before := Enciphering(c, b, k - 1);
      var r := c.xor(before.r, Round(c, before.l, 2 * k - 1));
      Block(c.xor(before.l, Round(c, r, 2 * k)), r)
  }

  function Encipher<W>(c: Key<W>, b: Block<W>): Block<W>
    requires |c.p| == 18
  {
    var e := Enciphering(c, b, 8);
    Block(c.xor(e.r, c.p[17]), e.l)
  }

  function Deciphering<W>(c: Key<W>, b: Block<W>, k: nat): Block<W>
    requires |c.p| == 18 && k <= 8
  {
    if k == 0 then Block(c.xor(b.l, c.p[17]), b.r)
    else
      var before := Deciphering(c, b, k - 1);
      var r := c.xor(before.r, Round(c, before.l, 18 - 2 * k));
      Block(c.xor(before.l, Round(c, r, 17 - 2 * k)), r)
  }

  function Decipher<W>(c: Key<W>, b: Block<W>): Block<W>
    requires |c.p| == 18
  {
    var d := Deciphering(c, b, 8);
    Block(c.xor(d.r, c.p[0]), d.l)
  }

  /** blfEncipherBlock */
  method EncipherBlock<W>(c: Key<W>, l: W, r: W) returns (L: W, R: W)
    requires |c.p| == 18
    ensures Block(L, R) == Encipher(c, Block(l, r))
  {
    L, R := c.xor(l, c.p[0]), r;
    var i := 1;
    while i <= 15
      invariant 1 <= i <= 17 && i % 2 == 1
      invariant Block(L, R) == Enciphering(c, Block(l, r), i / 2)
    {
      R := c.xor(R, Round(c, L, i));
      L := c.xor(L, Round(c, R, i + 1));
      i := i + 2;
    }
    L, R := c.xor(R, c.p[17]), L;
  }

  /** blfDecipherBlock */
  method DecipherBlock<W>(c: Key<W>, l: W, r: W) returns (L: W, R: W)
    requires |c.p| == 18
    ensures Block(L, R) == Decipher(c, Block(l, r))
  {
    L, R := c.xor(l, c.p[17]), r;
    var i := 16;
    while i >= 2
      invariant 0 <= i <= 16 && i % 2 == 0
      invariant Block(L, R) == Deciphering(c, Block(l, r), 8 - i / 2)
    {
      R := c.xor(R, Round(c, L, i));
      L := c.xor(L, Round(c, R, i - 1));
      i := i - 2;
    }
    L, R := c.xor(R, c.p[0]), L;
  }

  // ---------- the cipher inverts ----------

  /** Deciphering runs the passes backwards, with the halves exchanged. */
  lemma {:induction false} PassesRunBack<W(!new)>(c: Key<W>, b: Block<W>, k: nat)
    requires Undoes(c) && k <= 8
    ensures var e := Enciphering(c, b, 8 - k);
            Deciphering(c, Encipher(c, b), k) == Block(e.r, e.l)
  {
    if k > 0 {
      PassesRunBack(c, b, k - 1);
    }
  }

  lemma {:induction false} PassesRunForth<W(!new)>(c: Key<W>, b: Block<W>, k: nat)
    requires Undoes(c) && k <= 8
    ensures var d := Deciphering(c, b, 8 - k);
            Enciphering(c, Decipher(c, b), k) == Block(d.r, d.l)
  {
    if k > 0 {
      PassesRunForth(c, b, k - 1);
    }
  }

  /** For every key and block, each of the two undoes the other. */
  lemma {:induction false} CipherInverts<W(!new)>(c: Key<W>, b: Block<W>)
    requires Undoes(c)
    ensures Decipher(c, Encipher(c, b)) == b
    ensures Encipher(c, Decipher(c, b)) == b
  {
    PassesRunBack(c, b, 8);
    PassesRunForth(c, b, 8);
  }

  // ---------- the cipher is the textbook's ----------

  /** Sixteen rounds that add a word of P to the left half, add its mixing to the right one, and exchange them. */
  function TextbookRounds<W>(c: Key<W>, b: Block<W>, k: nat): Block<W>
    requires |c.p| == 18 && k <= 16
  {
    if k == 0 then b
    else
      var before := TextbookRounds(c, b, k - 1);
      var l := c.xor(before.l, c.p[k - 1]);
      Block(c.xor(before.r, c.mix(l)), l)
  }

  function Textbook<W>(c: Key<W>, b: Block<W>): Block<W>
    requires |c.p| == 18
  {
    var t := TextbookRounds(c, b, 16);
    Block(c.xor(t.r, c.p[17]), c.xor(t.l, c.p[16]))
  }

  /** The unrolled loop, which adds each word of P one round early and exchanges nothing, computes the same. */
  lemma {:induction false} PassIsTwoRounds<W(!new)>(c: Key<W>, b: Block<W>, k: nat)
    requires Lawful(c) && k <= 8
    ensures var t := TextbookRounds(c, b, 2 * k);
            Enciphering(c, b, k) == Block(c.xor(t.l, c.p[2 * k]), t.r)
  {
    if k > 0 {
      PassIsTwoRounds(c, b, k - 1);
      var t0, t1 := TextbookRounds(c, b, 2 * k - 2), TextbookRounds(c, b, 2 * k - 1);
      var before := Enciphering(c, b, k - 1);
      assert t1 == Block(c.xor(t0.r, c.mix(before.l)), before.l);
      var r := c.xor(before.r, Round(c, before.l, 2 * k - 1));
      assert TextbookRounds(c, b, 2 * k) == Block(c.xor(before.l, c.mix(r)), r);
    }
  }

  lemma {:induction false} CipherIsTextbook<W(!new)>(c: Key<W>, b: Block<W>)
    requires Lawful(c)
    ensures Encipher(c, b) == Textbook(c, b)
  {
    PassIsTwoRounds(c, b, 8);
  }
}
