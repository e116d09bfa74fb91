/** Adding or changing one message touches one path of the trie and nothing else. */
module TrieInsert {
  import opened JsText
  import opened Framing
  import opened Bits
  import opened ViewTrie

  function MkLeaf(h: Hasher, k: JsString, v: LeafValue): Branch {
    Leaf(k, v, h(LeafPreimage(k, v)))
  }

  function MkNode(h: Hasher, bit: nat, l: Branch, r: Branch): Branch {
    Node(bit, l, r, h(NodePreimage(bit, l.hash, r.hash)))
  }

  ghost predicate DivergesFrom(k: JsString, ks: set<JsString>) {
    forall a :: a in ks && a != k ==> Diverge(Utf8(k), Utf8(a))
  }

  /** Does the search for k go on below the top of t, or does k part from all of t's keys before it? */
  ghost predicate Descends(t: Branch, k: JsString) {
    t.Node? && AgreeBelow(k, AnyKey(t), t.bit)
  }

  ghost function PartsAt(t: Branch, k: JsString): nat
    requires DivergesFrom(k, Keys(t)) && k != AnyKey(t)
  {
    FirstDiff(Utf8(k), Utf8(AnyKey(t)))
  }

  /** A single-path insert: only the nodes from the top down to k's leaf are rebuilt. */
  ghost function Insert(h: Hasher, t: Branch, k: JsString, v: LeafValue): Branch
    requires DivergesFrom(k, Keys(t))
    decreases t
  {
    if Descends(t, k) then
      if KeyBit(k, t.bit) == 0 then MkNode(h, t.bit, Insert(h, t.left, k, v), t.right)
      else MkNode(h, t.bit, t.left, Insert(h, t.right, k, v))
    else if k == AnyKey(t) then MkLeaf(h, k, v)
    else
      var d := PartsAt(t, k);
      if KeyBit(k, d) == 0 then MkNode(h, d, MkLeaf(h, k, v), t) else MkNode(h, d, t, MkLeaf(h, k, v))
  }

  lemma {:induction false} PutLeft(l: ViewState, r: ViewState, k: JsString, v: LeafValue)
    requires k !in r
    ensures l[k := v] + r == (l + r)[k := v]
  {
  }

  lemma {:induction false} PutRight(l: ViewState, r: ViewState, k: JsString, v: LeafValue)
    ensures l + r[k := v] == (l + r)[k := v]
  {
  }

  lemma {:induction false} InsertHashed(h: Hasher, t: Branch, k: JsString, v: LeafValue)
    requires Hashed(h, t) && DivergesFrom(k, Keys(t))
    ensures Hashed(h, Insert(h, t, k, v))
  {
    if Descends(t, k) {
      InsertHashed(h, if KeyBit(k, t.bit) == 0 then t.left else t.right, k, v);
    }
  }

  lemma {:induction false} InsertState(h: Hasher, t: Branch, k: JsString, v: LeafValue)
    requires Radix(t) && DivergesFrom(k, Keys(t))
    ensures StateOf(Insert(h, t, k, v)) == StateOf(t)[k := v]
  {
    if Descends(t, k) {
      if KeyBit(k, t.bit) == 0 {
        var w := Insert(h, t.left, k, v);
        InsertState(h, t.left, k, v);
        assert k !in StateOf(t.right);
        PutLeft(StateOf(t.left), StateOf(t.right), k, v);
        assert StateOf(MkNode(h, t.bit, w, t.right)) == StateOf(w) + StateOf(t.right);
      } else {
        var w := Insert(h, t.right, k, v);
        InsertState(h, t.right, k, v);
        PutRight(StateOf(t.left), StateOf(t.right), k, v);
        assert StateOf(MkNode(h, t.bit, t.left, w)) == StateOf(t.left) + StateOf(w);
      }
    } else if k == AnyKey(t) {
      NotDescendingMeansLeaf(t, k);
    } else {
      PartsFromAll(t, k);
      assert k !in Keys(t);
      SplitState(h, t, k, v, PartsAt(t, k));
    }
  }

  lemma {:induction false} SplitState(h: Hasher, t: Branch, k: JsString, v: LeafValue, d: nat)
    requires k !in StateOf(t)
    ensures StateOf(MkNode(h, d, MkLeaf(h, k, v), t)) == StateOf(t)[k := v]
    ensures StateOf(MkNode(h, d, t, MkLeaf(h, k, v))) == StateOf(t)[k := v]
  {
    assert StateOf(MkLeaf(h, k, v)) == map[k := v];
  }

  lemma {:induction false} NotDescendingMeansLeaf(t: Branch, k: JsString)
    requires k == AnyKey(t) && !Descends(t, k)
    ensures t.Leaf?
  {
  }

  /** Below its top bit a trie's keys are alike, so parting from one is parting from all. */
  lemma {:induction false} PartsFromAll(t: Branch, k: JsString)
    requires Radix(t) && DivergesFrom(k, Keys(t)) && k != AnyKey(t) && !Descends(t, k)
    ensures var d := PartsAt(t, k);
            && (t.Node? ==> d < t.bit)
            && (forall a :: a in Keys(t) ==> KeyBit(a, d) != KeyBit(k, d) && AgreeBelow(a, k, d))
  {
    var d := PartsAt(t, k);
    forall a | a in Keys(t)
      ensures KeyBit(a, d) != KeyBit(k, d) && AgreeBelow(a, k, d)
    {
      assert t.Leaf? ==> a == AnyKey(t);
      assert t.Node? ==> AgreeBelow(a, AnyKey(t), t.bit);
      assert KeyBit(a, d) == KeyBit(AnyKey(t), d);
    }
  }

  lemma {:induction false} InsertRadix(h: Hasher, t: Branch, k: JsString, v: LeafValue, from: nat)
    requires Radix(t) && DivergesFrom(k, Keys(t))
    requires AgreeBelow(k, AnyKey(t), from) && (t.Node? ==> t.bit >= from)
    ensures Radix(Insert(h, t, k, v))
    ensures Insert(h, t, k, v).Node? ==> Insert(h, t, k, v).bit >= from
  {
    if Descends(t, k) {
      var side := if KeyBit(k, t.bit) == 0 then t.left else t.right;
      SideAgrees(t, k);
      InsertRadix(h, side, k, v, t.bit + 1);
      InsertKeys(h, side, k, v);
      DescendRadix(h, t, k, Insert(h, side, k, v));
    } else if k != AnyKey(t) {
      PartsFromAll(t, k);
      SplitRadix(h, t, k, v, PartsAt(t, k));
    }
  }

  lemma {:induction false} InsertKeys(h: Hasher, t: Branch, k: JsString, v: LeafValue)
    requires Radix(t) && DivergesFrom(k, Keys(t))
    ensures Keys(Insert(h, t, k, v)) == Keys(t) + {k}
  {
    InsertState(h, t, k, v);
    assert Keys(Insert(h, t, k, v)) == StateOf(Insert(h, t, k, v)).Keys;
  }

  /** The side of a node that k descends to agrees with k one bit further. */
  lemma {:induction false} SideAgrees(t: Branch, k: JsString)
    requires Radix(t) && Descends(t, k)
    ensures var side := if KeyBit(k, t.bit) == 0 then t.left else t.right;
            AgreeBelow(k, AnyKey(side), t.bit + 1) && (side.Node? ==> side.bit >= t.bit + 1)
  {
    var side := if KeyBit(k, t.bit) == 0 then t.left else t.right;
    var a := AnyKey(side);
    assert a in Keys(side) && a in Keys(t);
    assert KeyBit(a, t.bit) == KeyBit(k, t.bit);
    assert AgreeBelow(a, AnyKey(t), t.bit);
  }

  /** A new node above t, with k alone on one side. */
  lemma {:induction false} SplitRadix(h: Hasher, t: Branch, k: JsString, v: LeafValue, d: nat)
    requires Radix(t) && (t.Node? ==> d < t.bit)
    requires forall a :: a in Keys(t) ==> KeyBit(a, d) != KeyBit(k, d) && AgreeBelow(a, k, d)
    ensures Radix(if KeyBit(k, d) == 0 then MkNode(h, d, MkLeaf(h, k, v), t) else MkNode(h, d, t, MkLeaf(h, k, v)))
  {
    var u := if KeyBit(k, d) == 0 then MkNode(h, d, MkLeaf(h, k, v), t) else MkNode(h, d, t, MkLeaf(h, k, v));
    assert Keys(MkLeaf(h, k, v)) == {k} && Keys(u) == Keys(t) + {k};
    assert forall a :: a in Keys(t) ==> KeyBit(a, d) == 1 - KeyBit(k, d);
    assert AnyKey(t) in Keys(t) && AnyKey(u) in Keys(u);
    forall a | a in Keys(u)
      ensures AgreeBelow(a, AnyKey(u), d)
    {
      assert a == k || AgreeBelow(a, k, d);
      assert AnyKey(u) == k || AgreeBelow(AnyKey(u), k, d);
    }
    assert Radix(u.left) && Radix(u.right);
    assert Radix(u);
  }

  /** Replacing one side of a node by a trie that also holds k keeps the node a radix node. */
  lemma {:induction false} DescendRadix(h: Hasher, t: Branch, k: JsString, w: Branch)
    requires Radix(t) && Descends(t, k) && Radix(w) && (w.Node? ==> w.bit > t.bit)
    requires Keys(w) == Keys(if KeyBit(k, t.bit) == 0 then t.left else t.right) + {k}
    ensures Radix(if KeyBit(k, t.bit) == 0 then MkNode(h, t.bit, w, t.right) else MkNode(h, t.bit, t.left, w))
  {
    if KeyBit(k, t.bit) == 0 {
      DescendLeft(h, t, k, w);
    } else {
      DescendRight(h, t, k, w);
    }
  }

  lemma {:induction false} DescendLeft(h: Hasher, t: Branch, k: JsString, w: Branch)
    requires Radix(t) && Descends(t, k) && Radix(w) && (w.Node? ==> w.bit > t.bit)
    requires KeyBit(k, t.bit) == 0 && Keys(w) == Keys(t.left) + {k}
    ensures Radix(MkNode(h, t.bit, w, t.right))
  {
    var u := MkNode(h, t.bit, w, t.right);
    assert Keys(u) == Keys(t) + {k};
    DescendAgrees(t, k, u);
  }

  lemma {:induction false} DescendRight(h: Hasher, t: Branch, k: JsString, w: Branch)
    requires Radix(t) && Descends(t, k) && Radix(w) && (w.Node? ==> w.bit > t.bit)
    requires KeyBit(k, t.bit) == 1 && Keys(w) == Keys(t.right) + {k}
    ensures Radix(MkNode(h, t.bit, t.left, w))
  {
    var u := MkNode(h, t.bit, t.left, w);
    assert Keys(u) == Keys(t) + {k};
    DescendAgrees(t, k, u);
  }

  lemma {:induction false} DescendAgrees(t: Branch, k: JsString, u: Branch)
    requires Radix(t) && Descends(t, k) && Keys(u) == Keys(t) + {k}
    ensures forall a :: a in Keys(u) ==> AgreeBelow(a, AnyKey(u), t.bit)
  {
    assert AnyKey(u) in Keys(u);
    forall a | a in Keys(u)
      ensures AgreeBelow(a, AnyKey(u), t.bit)
    {
      assert AgreeBelow(a, AnyKey(t), t.bit) && AgreeBelow(AnyKey(u), AnyKey(t), t.bit);
    }
  }

  /** Rebuilding after adding or changing one message equals the single-path insert. */
  lemma {:induction false} RebuildIsInsert(h: Hasher, t: Branch, s: ViewState, k: JsString, v: LeafValue, u: Branch)
    requires IsTrie(h, t, s) && IsTrie(h, u, s[k := v])
    ensures DivergesFrom(k, Keys(t)) && u == Insert(h, t, k, v)
  {
    assert Keys(u) == s.Keys + {k} && Keys(t) == s.Keys;
    RadixKeysDiverge(u);
    InsertHashed(h, t, k, v);
    InsertState(h, t, k, v);
    InsertRadix(h, t, k, v, 0);
    TrieUnique(h, u, Insert(h, t, k, v));
  }

  // ---------- what an insert leaves alone ----------

  function Branches(t: Branch): set<Branch> {
    match t
    case Leaf(_, _, _) => {t}
    case Node(_, l, r, _) => {t} + Branches(l) + Branches(r)
  }

  /** The branches met on the way to k, as proveViewKey walks. */
  function SearchPath(t: Branch, k: JsString): set<Branch> {
    match t
    case Leaf(_, _, _) => {t}
    case Node(bit, l, r, _) => {t} + SearchPath(if KeyBit(k, bit) == 1 then r else l, k)
  }

  /** Every branch of the new trie that does not hold k was in the old one. */
  lemma {:induction false} InsertAddsNoneBesides(h: Hasher, t: Branch, k: JsString, v: LeafValue, b: Branch)
    requires Radix(t) && DivergesFrom(k, Keys(t))
    requires b in Branches(Insert(h, t, k, v)) && k !in Keys(b)
    ensures b in Branches(t)
  {
    InsertKeys(h, t, k, v);
    if Descends(t, k) {
      var side := if KeyBit(k, t.bit) == 0 then t.left else t.right;
      if b in Branches(Insert(h, side, k, v)) {
        InsertAddsNoneBesides(h, side, k, v, b);
      }
    } else if k == AnyKey(t) {
      NotDescendingMeansLeaf(t, k);
    }
  }

  /** Every branch of the old trie off k's search path is in the new one. */
  lemma {:induction false} InsertKeepsOffPath(h: Hasher, t: Branch, k: JsString, v: LeafValue, b: Branch)
    requires DivergesFrom(k, Keys(t))
    requires b in Branches(t) && b !in SearchPath(t, k)
    ensures b in Branches(Insert(h, t, k, v))
  {
    if Descends(t, k) {
      var side := if KeyBit(k, t.bit) == 0 then t.left else t.right;
      if b in Branches(side) {
        InsertKeepsOffPath(h, side, k, v, b);
      }
    } else if k == AnyKey(t) {
      NotDescendingMeansLeaf(t, k);
    }
  }

  /** A late message changes one path: every branch of the rebuilt trie that does not hold it
      was there before, and every old branch off its search path is still there. */
  lemma {:induction false} RebuildTouchesOnePath(h: Hasher, t: Branch, s: ViewState, k: JsString, v: LeafValue, u: Branch)
    requires IsTrie(h, t, s) && IsTrie(h, u, s[k := v])
    ensures forall b :: b in Branches(u) && k !in Keys(b) ==> b in Branches(t)
    ensures forall b :: b in Branches(t) && b !in SearchPath(t, k) ==> b in Branches(u)
  {
    RebuildIsInsert(h, t, s, k, v, u);
    forall b | b in Branches(u) && k !in Keys(b)
      ensures b in Branches(t)
    {
      InsertAddsNoneBesides(h, t, k, v, b);
    }
    forall b | b in Branches(t) && b !in SearchPath(t, k)
      ensures b in Branches(u)
    {
      InsertKeepsOffPath(h, t, k, v, b);
    }
  }

  // ---------- existence ----------

  ghost function Sum(h: Hasher, s: ViewState): (t: Branch)
    requires s != map[] && KeysDiverge(s.Keys)
    ensures IsTrie(h, t, s)
  {
    var k :| k in s;
    var rest := s - {k};
    if rest == map[] then
      assert s == map[k := s[k]];
      MkLeaf(h, k, s[k])
    else
      var t := Sum(h, rest);
      assert rest[k := s[k]] == s;
      InsertHashed(h, t, k, s[k]);
      InsertState(h, t, k, s[k]);
      InsertRadix(h, t, k, s[k], 0);
      Insert(h, t, k, s[k])
  }

  /** A state has a trie exactly when its keys can be told apart by some bit. */
  lemma {:induction false} TrieExistsIff(h: Hasher, s: ViewState)
    requires s != map[]
    ensures (exists t :: IsTrie(h, t, s)) <==> KeysDiverge(s.Keys)
  {
    if KeysDiverge(s.Keys) {
      assert IsTrie(h, Sum(h, s), s);
    }
    forall t | IsTrie(h, t, s)
      ensures KeysDiverge(s.Keys)
    {
      RadixKeysDiverge(t);
    }
  }
}
