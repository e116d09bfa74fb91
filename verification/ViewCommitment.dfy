/** view_root is binding: one root for two states exhibits two hash inputs with one digest. */
module ViewCommitment {
  import opened Prelude
  import opened JsText
  import opened Framing
  import opened Bits
  import opened ViewTrie

  /** buildViewTree's result: 'dvr_' + hex of the top hash, and the trie unless the dialog is empty. */
  datatype ViewTree = ViewTree(root: JsString, node: Option<Branch>)

  const ROOT_PREFIX: Bytes := Ascii("dvr_")

  function RootOf(d: Digest): JsString {
    ROOT_PREFIX + BytesToHex(d)
  }

  ghost predicate IsViewTree(h: Hasher, vt: ViewTree, s: ViewState) {
    match vt.node
    case None => s == map[] && vt.root == RootOf(h(EMPTY_PREIMAGE))
    case Some(t) => IsTrie(h, t, s) && vt.root == RootOf(t.hash)
  }

  lemma {:induction false} ViewTreeUnique(h: Hasher, v: ViewTree, w: ViewTree, s: ViewState)
    requires IsViewTree(h, v, s) && IsViewTree(h, w, s)
    ensures v == w
  {
    if v.node.Some? {
      assert AnyKey(v.node.value) in s;
    }
    if w.node.Some? {
      assert AnyKey(w.node.value) in s;
    }
    if v.node.Some? && w.node.Some? {
      TrieUnique(h, v.node.value, w.node.value);
    }
  }

  // ---------- sizes ----------

  /** Keys as the trie takes them (ASCII, bit indexes below 2^32) and sign hashes a frame can hold. */
  ghost predicate SizedState(s: ViewState) {
    forall k :: k in s ==> IsAscii(k) && |k| < 0x2000_0000 && WellFormed(s[k].signHash) && |Utf8(s[k].signHash)| < TWO32
  }

  predicate SizedBranch(t: Branch) {
    match t
    case Leaf(k, v, _) => Framable(k, v)
    case Node(bit, l, r, _) => bit < TWO32 && SizedBranch(l) && SizedBranch(r)
  }

  lemma {:induction false} SizedTrie(t: Branch)
    requires Radix(t) && SizedState(StateOf(t))
    ensures SizedBranch(t)
  {
    if t.Leaf? {
      assert t.key in StateOf(t);
      Utf8OfAscii(t.key);
    } else {
      var k := AnyKey(t.right);
      assert KeyBit(k, t.bit) == 1 && k in StateOf(t);
      Utf8OfAscii(k);
      NodeSplitsState(t);
      SizedTrie(t.left);
      SizedTrie(t.right);
    }
  }

  // ---------- binding ----------

  /** Every input hashed while a trie is built. */
  function Preimages(t: Branch): set<Bytes> {
    match t
    case Leaf(k, v, _) => {LeafPreimage(k, v)}
    case Node(bit, l, r, _) => {NodePreimage(bit, l.hash, r.hash)} + (Preimages(l) + Preimages(r))
  }

  function TopPreimage(t: Branch): (p: Bytes)
    ensures p in Preimages(t)
  {
    match t
    case Leaf(k, v, _) => LeafPreimage(k, v)
    case Node(bit, l, r, _) => NodePreimage(bit, l.hash, r.hash)
  }

  lemma {:induction false} HashIsTop(h: Hasher, t: Branch)
    requires Hashed(h, t)
    ensures t.hash == h(TopPreimage(t))
  {
  }

  /** Equal top hashes: the same trie, or two different inputs with one digest. */
  lemma {:induction false} BranchBinding(h: Hasher, t: Branch, u: Branch)
    requires Hashed(h, t) && Hashed(h, u) && SizedBranch(t) && SizedBranch(u)
    requires t.hash == u.hash
    ensures t == u || Collide(h, Preimages(t), Preimages(u))
  {
    HashIsTop(h, t);
    HashIsTop(h, u);
    if TopPreimage(t) != TopPreimage(u) {
      assert Collide(h, Preimages(t), Preimages(u));
    } else if t.Leaf? && u.Leaf? {
      LeafPreimageInjective(t.key, t.value, u.key, u.value);
    } else if t.Node? && u.Node? {
      NodePreimageInjective(t.bit, t.left.hash, t.right.hash, u.bit, u.left.hash, u.right.hash);
      U32Injective(t.bit, u.bit);
      BranchBinding(h, t.left, u.left);
      BranchBinding(h, t.right, u.right);
      CollideMonotone(h, Preimages(t.left), Preimages(u.left), Preimages(t), Preimages(u));
      CollideMonotone(h, Preimages(t.right), Preimages(u.right), Preimages(t), Preimages(u));
    } else {
      var leaf, node := if t.Leaf? then t else u, if t.Leaf? then u else t;
      DomainsApart(leaf.key, leaf.value, node.bit, node.left.hash, node.right.hash);
      assert false;
    }
  }

  function TreePreimages(vt: ViewTree): set<Bytes> {
    match vt.node
    case None => {EMPTY_PREIMAGE}
    case Some(t) => Preimages(t)
  }

  /** Two view states with one root are one state, or the two trees exhibit a collision. */
  lemma {:induction false} RootBinding(h: Hasher, v: ViewTree, s: ViewState, w: ViewTree, s': ViewState)
    requires IsViewTree(h, v, s) && IsViewTree(h, w, s') && SizedState(s) && SizedState(s')
    requires v.root == w.root
    ensures s == s' || Collide(h, TreePreimages(v), TreePreimages(w))
  {
    RootInjective(h, v, w, s, s');
    if v.node.Some? && w.node.Some? {
      SizedTrie(v.node.value);
      SizedTrie(w.node.value);
      BranchBinding(h, v.node.value, w.node.value);
    } else if v.node.Some? || w.node.Some? {
      var t := if v.node.Some? then v.node.value else w.node.value;
      HashIsTop(h, t);
      if t.Leaf? {
        DomainsApart(t.key, t.value, 0, t.hash, t.hash);
      } else {
        DomainsApart([], LeafValue([], false), t.bit, t.left.hash, t.right.hash);
      }
      assert TopPreimage(t) != EMPTY_PREIMAGE && h(TopPreimage(t)) == h(EMPTY_PREIMAGE);
    }
  }

  function TopDigest(h: Hasher, vt: ViewTree): Digest {
    match vt.node
    case None => h(EMPTY_PREIMAGE)
    case Some(t) => t.hash
  }

  lemma {:induction false} RootInjective(h: Hasher, v: ViewTree, w: ViewTree, s: ViewState, s': ViewState)
    requires IsViewTree(h, v, s) && IsViewTree(h, w, s') && v.root == w.root
    ensures TopDigest(h, v) == TopDigest(h, w)
  {
    RootOfInjective(TopDigest(h, v), TopDigest(h, w));
  }

  lemma {:induction false} RootOfInjective(d: Digest, e: Digest)
    requires RootOf(d) == RootOf(e)
    ensures d == e
  {
    assert RootOf(d)[4..] == BytesToHex(d) && RootOf(e)[4..] == BytesToHex(e);
    HexInjective(d, e);
  }

  // ---------- ill-formed sign hashes ----------

  function RepairedValue(v: LeafValue): LeafValue {
    LeafValue(ToWellFormed(v.signHash), v.deleted)
  }

  /** The view with U+FFFD for every unpaired surrogate of a sign hash. */
  function RepairedState(s: ViewState): ViewState {
    map k | k in s :: RepairedValue(s[k])
  }

  function Repaired(t: Branch): (u: Branch)
    ensures Keys(u) == Keys(t) && AnyKey(u) == AnyKey(t)
  {
    match t
    case Leaf(k, v, d) => Leaf(k, RepairedValue(v), d)
    case Node(bit, l, r, d) => Node(bit, Repaired(l), Repaired(r), d)
  }

  lemma {:induction false} RepairedUnion(s: ViewState, s': ViewState)
    ensures RepairedState(s + s') == RepairedState(s) + RepairedState(s')
  {
    forall k | k in s + s'
      ensures RepairedState(s + s')[k] == (RepairedState(s) + RepairedState(s'))[k]
    {
      assert k in s' ==> RepairedState(s')[k] == RepairedValue(s'[k]);
    }
  }

  lemma {:induction false} RepairedHolds(t: Branch)
    ensures StateOf(Repaired(t)) == RepairedState(StateOf(t))
  {
    if t.Node? {
      RepairedHolds(t.left);
      RepairedHolds(t.right);
      RepairedUnion(StateOf(t.left), StateOf(t.right));
    }
  }

  lemma {:induction false} RepairedRadix(t: Branch)
    requires Radix(t)
    ensures Radix(Repaired(t))
  {
    if t.Node? {
      RepairedRadix(t.left);
      RepairedRadix(t.right);
    }
  }

  lemma {:induction false} RepairedHashed(h: Hasher, t: Branch)
    requires Hashed(h, t)
    ensures Repaired(t).hash == t.hash && Hashed(h, Repaired(t)) && Preimages(Repaired(t)) == Preimages(t)
  {
    if t.Leaf? {
      RepairKeepsUtf8(t.value.signHash);
    } else {
      RepairedHashed(h, t.left);
      RepairedHashed(h, t.right);
    }
  }

  lemma {:induction false} RepairedSame(s: ViewState)
    ensures RepairedState(s) == s <==> forall k :: k in s ==> WellFormed(s[k].signHash)
  {
    forall k | k in s
      ensures RepairedState(s)[k] == s[k] <==> WellFormed(s[k].signHash)
    {
      RepairKeepsUtf8(s[k].signHash);
      RepairsIllFormed(s[k].signHash);
    }
    assert RepairedState(s) == s <==> forall k :: k in s ==> RepairedState(s)[k] == s[k];
  }

  /** Why binding asks for well-formed sign hashes: a view and the one with U+FFFD for its unpaired surrogates share
      root and everything hashed, and they are different views exactly when some sign hash is ill-formed. */
  lemma {:induction false} IllFormedViewsShareRoot(h: Hasher, t: Branch, s: ViewState)
    requires IsTrie(h, t, s)
    ensures IsTrie(h, Repaired(t), RepairedState(s)) && Repaired(t).hash == t.hash && Preimages(Repaired(t)) == Preimages(t)
    ensures RepairedState(s) != s <==> exists k :: k in s && !WellFormed(s[k].signHash)
  {
    RepairedHolds(t);
    RepairedRadix(t);
    RepairedHashed(h, t);
    RepairedSame(s);
  }
}
