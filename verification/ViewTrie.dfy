/** The view trie of a dialog: what it commits to, its radix shape, and that the shape is unique. */
module ViewTrie {
  import opened JsText
  import opened Framing
  import opened Bits

  datatype LeafValue = LeafValue(signHash: JsString, deleted: bool)

  type ViewState = map<JsString, LeafValue>

  datatype Branch =
    | Leaf(key: JsString, value: LeafValue, hash: Digest)
    | Node(bit: nat, left: Branch, right: Branch, hash: Digest)

  // ---------- pre-images ----------

  const LEAF_DOMAIN: Bytes := Ascii("BUCKITUP_DIALOG_VIEW_LEAF_V2")
  const NODE_DOMAIN: Bytes := Ascii("BUCKITUP_DIALOG_VIEW_NODE_V2")
  const TREE_VERSION: Bytes := Ascii("dialog-view-tree-v3")

  function LeafPreimage(key: JsString, value: LeafValue): Bytes {
    LEAF_DOMAIN + (Framed(Utf8(key)) + (Framed(Utf8(value.signHash)) + [if value.deleted then 1 else 0]))
  }

  function NodePreimage(bit: nat, left: Digest, right: Digest): Bytes {
    NODE_DOMAIN + (U32(bit) + (left + right))
  }

  const EMPTY_PREIMAGE: Bytes := NODE_DOMAIN + (Framed(TREE_VERSION) + Ascii("empty"))

  method DeriveLeafHash(h: Hasher, key: JsString, value: LeafValue) returns (d: Digest)
    ensures d == h(LeafPreimage(key, value))
  {
    var id, sign := Utf8(key), Utf8(value.signHash);
    var parts := [LEAF_DOMAIN, U32(|id|), id, U32(|sign|), sign, [if value.deleted then 1 else 0]];
    d := ConcatHash(h, parts);
    assert Flatten(parts[5..]) == parts[5];
    assert Flatten(parts[3..]) == Framed(sign) + parts[5];
    assert Flatten(parts[1..]) == Framed(id) + (Framed(sign) + parts[5]);
  }

  method NodeHash(h: Hasher, bit: nat, left: Digest, right: Digest) returns (d: Digest)
    ensures d == h(NodePreimage(bit, left, right))
  {
    var parts := [NODE_DOMAIN, U32(bit), left, right];
    d := ConcatHash(h, parts);
    assert Flatten(parts[3..]) == right;
    assert Flatten(parts[2..]) == left + right;
  }

  lemma {:induction false} DomainsApart(key: JsString, value: LeafValue, bit: nat, left: Digest, right: Digest)
    ensures LeafPreimage(key, value) != NodePreimage(bit, left, right)
    ensures LeafPreimage(key, value) != EMPTY_PREIMAGE
    ensures NodePreimage(bit, left, right) != EMPTY_PREIMAGE
  {
    assert LEAF_DOMAIN[23] != NODE_DOMAIN[23];
    assert LeafPreimage(key, value)[23] == LEAF_DOMAIN[23];
    assert NodePreimage(bit, left, right)[23] == NODE_DOMAIN[23] == EMPTY_PREIMAGE[23];
    assert |NodePreimage(bit, left, right)| == |NODE_DOMAIN| + 132;
    assert |EMPTY_PREIMAGE| == |NODE_DOMAIN| + 28;
  }

  lemma {:induction false} NodePreimageInjective(bit: nat, l: Digest, r: Digest, bit': nat, l': Digest, r': Digest)
    requires NodePreimage(bit, l, r) == NodePreimage(bit', l', r')
    ensures U32(bit) == U32(bit') && l == l' && r == r'
  {
    var n := |NODE_DOMAIN|;
    var p, q := NodePreimage(bit, l, r), NodePreimage(bit', l', r');
    assert U32(bit) == p[n..n + 4] && U32(bit') == q[n..n + 4];
    assert l == p[n + 4..n + 68] && l' == q[n + 4..n + 68];
    assert r == p[n + 68..] && r' == q[n + 68..];
  }

  /** What a signable leaf needs for its pre-image to be read back: UTF-16 without stray halves, lengths below 2^32. */
  predicate Framable(key: JsString, value: LeafValue) {
    && WellFormed(key) && |Utf8(key)| < TWO32
    && WellFormed(value.signHash) && |Utf8(value.signHash)| < TWO32
  }

  /** Any leaf with the pre-image of a framable one is that one, but for unpaired surrogates read as U+FFFD;
      lengths that setUint32 wraps cannot hide another. */
  lemma {:induction false} LeafPreimageBinds(key: JsString, value: LeafValue, key': JsString, value': LeafValue)
    requires Framable(key', value') && LeafPreimage(key, value) == LeafPreimage(key', value')
    ensures ToWellFormed(key) == key'
    ensures ToWellFormed(value.signHash) == value'.signHash && value.deleted == value'.deleted
  {
    var n := |LEAF_DOMAIN|;
    var flag: Bytes, flag': Bytes := [if value.deleted then 1 else 0], [if value'.deleted then 1 else 0];
    var sign, sign' := Utf8(value.signHash), Utf8(value'.signHash);
    var p, p' := LeafPreimage(key, value), LeafPreimage(key', value');
    assert p[n..] == Framed(Utf8(key)) + (Framed(sign) + flag);
    assert p'[n..] == Framed(Utf8(key')) + (Framed(sign') + flag');
    FramePrefixOf(Utf8(key), Utf8(key'), Framed(sign) + flag, Framed(sign') + flag');
    FramePrefixOf(sign, sign', flag, flag');
    assert flag[0] == flag'[0];
    RepairedIs(key, key');
    RepairedIs(value.signHash, value'.signHash);
  }

  lemma {:induction false} RepairedIs(s: JsString, s': JsString)
    requires Utf8(s) == Utf8(s') && WellFormed(s')
    ensures ToWellFormed(s) == s'
  {
    Utf8SameIff(s, s');
    RepairsIllFormed(s');
  }

  lemma {:induction false} LeafPreimageInjective(key: JsString, value: LeafValue, key': JsString, value': LeafValue)
    requires Framable(key, value) && Framable(key', value')
    requires LeafPreimage(key, value) == LeafPreimage(key', value')
    ensures key == key' && value == value'
  {
    LeafPreimageBinds(key, value, key', value');
    RepairsIllFormed(key);
    RepairsIllFormed(value.signHash);
  }

  lemma {:induction false} PreimageTail(key: JsString, value: LeafValue)
    ensures var n := |LEAF_DOMAIN| + 4 + |Utf8(key)|;
            n <= |LeafPreimage(key, value)|
            && LeafPreimage(key, value)[n..] == Framed(Utf8(value.signHash)) + [if value.deleted then 1 else 0]
  {
    var head := LEAF_DOMAIN + Framed(Utf8(key));
    assert LeafPreimage(key, value) == head + (Framed(Utf8(value.signHash)) + [if value.deleted then 1 else 0]);
  }

  /** What the well-formedness is for: two sign hashes a frame can hold share a leaf pre-image exactly when they are one
      once unpaired surrogates are U+FFFD. */
  lemma {:induction false} IllFormedHashesCollapse(key: JsString, s: JsString, s': JsString, deleted: bool)
    requires |Utf8(s)| < TWO32 && |Utf8(s')| < TWO32
    ensures LeafPreimage(key, LeafValue(s, deleted)) == LeafPreimage(key, LeafValue(s', deleted))
            <==> ToWellFormed(s) == ToWellFormed(s')
  {
    Utf8SameIff(s, s');
    if LeafPreimage(key, LeafValue(s, deleted)) == LeafPreimage(key, LeafValue(s', deleted)) {
      var flag: Bytes := [if deleted then 1 else 0];
      PreimageTail(key, LeafValue(s, deleted));
      PreimageTail(key, LeafValue(s', deleted));
      FramePrefix(Utf8(s), Utf8(s'), flag, flag);
    }
  }

  // ---------- shape ----------

  function KeyBit(key: JsString, bit: nat): (r: nat)
    ensures r < 2
  {
    BitAt(Utf8(key), bit)
  }

  /** The leaves in order, as collectLeaves visits them. */
  function Leaves(t: Branch): (r: seq<Branch>)
    ensures |r| > 0
  {
    match t
    case Leaf(_, _, _) => [t]
    case Node(_, l, r, _) => Leaves(l) + Leaves(r)
  }

  function Keys(t: Branch): (r: set<JsString>) {
    match t
    case Leaf(k, _, _) => {k}
    case Node(_, l, r, _) => Keys(l) + Keys(r)
  }

  /** The view state a trie holds. */
  function StateOf(t: Branch): (r: ViewState)
    ensures r.Keys == Keys(t)
  {
    match t
    case Leaf(k, v, _) => map[k := v]
    case Node(_, l, r, _) => StateOf(l) + StateOf(r)
  }

  function AnyKey(t: Branch): (k: JsString)
    ensures k in Keys(t)
  {
    match t
    case Leaf(k, _, _) => k
    case Node(_, l, _, _) => AnyKey(l)
  }

  ghost predicate AgreeBelow(a: JsString, b: JsString, bit: nat) {
    forall m: nat :: m < bit ==> KeyBit(a, m) == KeyBit(b, m)
  }

  /** A radix trie: bits increase down each path, keys under a node agree on all earlier bits,
      left keys have 0 and right keys 1 at its bit. */
  ghost predicate Radix(t: Branch) {
    match t
    case Leaf(_, _, _) => true
    case Node(bit, l, r, _) =>
      && Radix(l) && Radix(r)
      && (l.Node? ==> l.bit > bit) && (r.Node? ==> r.bit > bit)
      && (forall k :: k in Keys(t) ==> AgreeBelow(k, AnyKey(t), bit))
      && (forall k :: k in Keys(l) ==> KeyBit(k, bit) == 0)
      && (forall k :: k in Keys(r) ==> KeyBit(k, bit) == 1)
  }

  ghost predicate Hashed(h: Hasher, t: Branch) {
    match t
    case Leaf(k, v, d) => d == h(LeafPreimage(k, v))
    case Node(bit, l, r, d) => Hashed(h, l) && Hashed(h, r) && d == h(NodePreimage(bit, l.hash, r.hash))
  }

  /** t is the view trie of s. */
  ghost predicate IsTrie(h: Hasher, t: Branch, s: ViewState) {
    Radix(t) && Hashed(h, t) && StateOf(t) == s
  }

  ghost predicate KeysDiverge(ks: set<JsString>) {
    forall a, b :: a in ks && b in ks && a != b ==> Diverge(Utf8(a), Utf8(b))
  }

  lemma {:induction false} RadixKeysDiverge(t: Branch)
    requires Radix(t)
    ensures KeysDiverge(Keys(t))
  {
    if t.Node? {
      RadixKeysDiverge(t.left);
      RadixKeysDiverge(t.right);
      forall a, b | a in Keys(t) && b in Keys(t) && a != b
        ensures Diverge(Utf8(a), Utf8(b))
      {
        assert (a in Keys(t.left) && b in Keys(t.left)) || (a in Keys(t.right) && b in Keys(t.right))
               || KeyBit(a, t.bit) != KeyBit(b, t.bit);
      }
    }
  }

  /** A node's bit is the lowest one on which its keys disagree. */
  lemma {:induction false} NodeBitDetermined(t: Branch, u: Branch)
    requires Radix(t) && Radix(u) && t.Node? && u.Node? && Keys(t) == Keys(u)
    ensures u.bit <= t.bit
  {
    var a, b := AnyKey(t.left), AnyKey(t.right);
    assert a in Keys(u) && b in Keys(u);
    assert AgreeBelow(a, AnyKey(u), u.bit) && AgreeBelow(b, AnyKey(u), u.bit);
  }

  lemma {:induction false} NodeHasTwoKeys(t: Branch)
    requires Radix(t) && t.Node?
    ensures AnyKey(t.left) in Keys(t) && AnyKey(t.right) in Keys(t) && AnyKey(t.left) != AnyKey(t.right)
  {
    assert KeyBit(AnyKey(t.left), t.bit) != KeyBit(AnyKey(t.right), t.bit);
  }

  function Side(s: ViewState, bit: nat, side: nat): ViewState {
    map k | k in s && KeyBit(k, bit) == side :: s[k]
  }

  lemma {:induction false} UnionSides(l: ViewState, r: ViewState, bit: nat)
    requires forall k :: k in l ==> KeyBit(k, bit) == 0
    requires forall k :: k in r ==> KeyBit(k, bit) == 1
    ensures Side(l + r, bit, 0) == l && Side(l + r, bit, 1) == r
  {
  }

  /** A node's branches hold the two sides of its state. */
  lemma {:induction false} NodeSplitsState(t: Branch)
    requires Radix(t) && t.Node?
    ensures StateOf(t.left) == Side(StateOf(t), t.bit, 0)
    ensures StateOf(t.right) == Side(StateOf(t), t.bit, 1)
  {
    UnionSides(StateOf(t.left), StateOf(t.right), t.bit);
  }

  lemma {:induction false} ShapeDetermined(t: Branch, u: Branch)
    requires Radix(t) && Radix(u) && Keys(t) == Keys(u)
    ensures t.Leaf? <==> u.Leaf?
    ensures t.Node? && u.Node? ==> t.bit == u.bit
  {
    if t.Node? {
      NodeHasTwoKeys(t);
    }
    if u.Node? {
      NodeHasTwoKeys(u);
    }
    if t.Node? && u.Node? {
      NodeBitDetermined(t, u);
      NodeBitDetermined(u, t);
    }
  }

  lemma {:induction false} LeafDetermined(t: Branch, u: Branch)
    requires t.Leaf? && u.Leaf? && StateOf(t) == StateOf(u)
    ensures t.key == u.key && t.value == u.value
  {
    assert t.key in StateOf(u) && StateOf(t)[t.key] == t.value;
    assert u.key in StateOf(t) && StateOf(u)[u.key] == u.value;
  }

  /** The trie of a state is unique: shape and hashes depend on the state alone. */
  lemma {:induction false} TrieUnique(h: Hasher, t: Branch, u: Branch)
    requires Radix(t) && Radix(u) && Hashed(h, t) && Hashed(h, u) && StateOf(t) == StateOf(u)
    ensures t == u
  {
    ShapeDetermined(t, u);
    if t.Leaf? {
      LeafDetermined(t, u);
    } else {
      NodeSplitsState(t);
      NodeSplitsState(u);
      TrieUnique(h, t.left, u.left);
      TrieUnique(h, t.right, u.right);
    }
  }
}
