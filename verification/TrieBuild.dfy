/** buildBranch and buildViewTree: the recursive radix split that compares only the first and last key. */
module TrieBuild {
  import opened Prelude
  import opened JsText
  import opened Records
  import opened Framing
  import opened Bits
  import opened ViewTrie
  import opened ViewCommitment
  import opened TrieInsert

  ghost predicate AllLeaves(h: Hasher, es: seq<Branch>) {
    forall i :: 0 <= i < |es| ==> es[i].Leaf? && Hashed(h, es[i])
  }

  ghost predicate InBitOrder(es: seq<Branch>)
    requires forall i :: 0 <= i < |es| ==> es[i].Leaf?
  {
    forall i, j :: 0 <= i < j < |es| ==> Before(Utf8(es[i].key), Utf8(es[j].key))
  }

  ghost predicate AllAgreeBelow(es: seq<Branch>, bit: nat)
    requires forall i :: 0 <= i < |es| ==> es[i].Leaf?
  {
    forall i, j :: 0 <= i < |es| && 0 <= j < |es| ==> AgreeBelow(es[i].key, es[j].key, bit)
  }

  /** Comparing first with last is enough: the list is sorted, so all keys agree where those two do. */
  lemma {:induction false} EndsDecide(es: seq<Branch>, bit: nat)
    requires |es| > 0 && (forall i :: 0 <= i < |es| ==> es[i].Leaf?) && InBitOrder(es)
    requires AgreeBelow(es[0].key, es[|es| - 1].key, bit)
    ensures AllAgreeBelow(es, bit)
  {
    var first, last := Utf8(es[0].key), Utf8(es[|es| - 1].key);
    forall i | 0 <= i < |es|
      ensures forall m: nat :: m < bit ==> KeyBit(es[i].key, m) == KeyBit(es[0].key, m)
    {
      assert forall m: nat :: m < bit ==> BitAt(first, m) == KeyBit(es[0].key, m) && BitAt(last, m) == KeyBit(es[|es| - 1].key, m);
      BetweenAgrees(first, Utf8(es[i].key), last, bit);
    }
  }

  /** Zeros, then ones. */
  ghost predicate BitAscends(es: seq<Branch>, bit: nat)
    requires forall i :: 0 <= i < |es| ==> es[i].Leaf?
  {
    forall i, j :: 0 <= i < j < |es| && KeyBit(es[i].key, bit) == 1 ==> KeyBit(es[j].key, bit) == 1
  }

  /** Keys alike below a bit are sorted by that bit. */
  lemma {:induction false} BitMonotone(es: seq<Branch>, bit: nat)
    requires (forall i :: 0 <= i < |es| ==> es[i].Leaf?) && InBitOrder(es) && AllAgreeBelow(es, bit)
    ensures BitAscends(es, bit)
  {
    forall i, j | 0 <= i < j < |es| && KeyBit(es[i].key, bit) == 1
      ensures KeyBit(es[j].key, bit) == 1
    {
      assert Before(Utf8(es[i].key), Utf8(es[j].key)) && AgreeBelow(es[i].key, es[j].key, bit);
      BitOrderAt(es[i].key, es[j].key, bit);
    }
  }

  lemma {:induction false} BitOrderAt(a: JsString, b: JsString, bit: nat)
    requires Before(Utf8(a), Utf8(b)) && AgreeBelow(a, b, bit) && KeyBit(a, bit) == 1
    ensures KeyBit(b, bit) == 1
  {
    var d: nat :| SplitsAt(Utf8(a), Utf8(b), d);
    assert d < bit ==> KeyBit(a, d) == KeyBit(b, d);
    assert d > bit ==> BitAt(Utf8(a), bit) == BitAt(Utf8(b), bit);
  }

  lemma {:induction false} LeavesAreKeys(t: Branch)
    ensures forall i :: 0 <= i < |Leaves(t)| ==> Leaves(t)[i].Leaf? && Leaves(t)[i].key in Keys(t)
    ensures forall k :: k in Keys(t) ==> exists i :: 0 <= i < |Leaves(t)| && Leaves(t)[i].key == k
  {
    if t.Node? {
      LeavesAreKeys(t.left);
      LeavesAreKeys(t.right);
      var l, r := Leaves(t.left), Leaves(t.right);
      forall k | k in Keys(t)
        ensures exists i :: 0 <= i < |Leaves(t)| && Leaves(t)[i].key == k
      {
        if k in Keys(t.left) {
          var i :| 0 <= i < |l| && l[i].key == k;
          assert (l + r)[i].key == k;
        } else {
          var i :| 0 <= i < |r| && r[i].key == k;
          assert (l + r)[|l| + i].key == k;
        }
      }
    } else {
      assert Leaves(t)[0].key == t.key;
    }
  }

  /** Joining two radix tries whose keys part at bit. */
  lemma {:induction false} JoinRadix(h: Hasher, es: seq<Branch>, split: nat, bit: nat, l: Branch, r: Branch)
    requires (forall i :: 0 <= i < |es| ==> es[i].Leaf?) && 0 < split < |es| && AllAgreeBelow(es, bit)
    requires Radix(l) && Radix(r) && (l.Node? ==> l.bit > bit) && (r.Node? ==> r.bit > bit)
    requires Leaves(l) == es[..split] && Leaves(r) == es[split..]
    requires forall i :: 0 <= i < split ==> KeyBit(es[i].key, bit) == 0
    requires forall i :: split <= i < |es| ==> KeyBit(es[i].key, bit) == 1
    ensures Radix(MkNode(h, bit, l, r)) && Leaves(MkNode(h, bit, l, r)) == es
  {
    var t := MkNode(h, bit, l, r);
    assert es == es[..split] + es[split..];
    assert Leaves(t) == es;
    KeysHaveBit(l, es[..split], bit, 0);
    KeysHaveBit(r, es[split..], bit, 1);
    KeysAgree(t, es, bit);
  }

  lemma {:induction false} KeysHaveBit(t: Branch, es: seq<Branch>, bit: nat, b: nat)
    requires Leaves(t) == es && forall i :: 0 <= i < |es| ==> es[i].Leaf? && KeyBit(es[i].key, bit) == b
    ensures forall k :: k in Keys(t) ==> KeyBit(k, bit) == b
  {
    LeavesAreKeys(t);
    forall k | k in Keys(t)
      ensures KeyBit(k, bit) == b
    {
      var i :| 0 <= i < |es| && es[i].key == k;
    }
  }

  lemma {:induction false} KeysAgree(t: Branch, es: seq<Branch>, bit: nat)
    requires Leaves(t) == es && (forall i :: 0 <= i < |es| ==> es[i].Leaf?) && AllAgreeBelow(es, bit)
    ensures forall k :: k in Keys(t) ==> AgreeBelow(k, AnyKey(t), bit)
  {
    LeavesAreKeys(t);
    var j :| 0 <= j < |es| && es[j].key == AnyKey(t);
    forall k | k in Keys(t)
      ensures AgreeBelow(k, AnyKey(t), bit)
    {
      var i :| 0 <= i < |es| && es[i].key == k;
      assert AgreeBelow(es[i].key, es[j].key, bit);
    }
  }

  lemma {:induction false} SideInOrder(es: seq<Branch>, lo: nat, hi: nat)
    requires (forall i :: 0 <= i < |es| ==> es[i].Leaf?) && InBitOrder(es) && lo <= hi <= |es|
    ensures InBitOrder(es[lo..hi])
  {
  }

  /** One side of the split agrees one bit further. */
  lemma {:induction false} SideAgreesFurther(es: seq<Branch>, lo: nat, hi: nat, bit: nat, b: nat)
    requires (forall i :: 0 <= i < |es| ==> es[i].Leaf?) && AllAgreeBelow(es, bit) && lo <= hi <= |es|
    requires forall i :: lo <= i < hi ==> KeyBit(es[i].key, bit) == b
    ensures AllAgreeBelow(es[lo..hi], bit + 1)
  {
    var side := es[lo..hi];
    forall i, j | 0 <= i < |side| && 0 <= j < |side|
      ensures AgreeBelow(side[i].key, side[j].key, bit + 1)
    {
      assert AgreeBelow(es[lo + i].key, es[lo + j].key, bit);
    }
  }

  /** The scan for the lowest bit where the first and last key disagree. */
  method FirstDisagreement(first: Bytes, last: Bytes, fromBit: nat) returns (bit: nat)
    requires Before(first, last)
    requires forall m: nat :: m < fromBit ==> BitAt(first, m) == BitAt(last, m)
    ensures fromBit <= bit && SplitsAt(first, last, bit)
  {
    ghost var d: nat :| SplitsAt(first, last, d);
    bit := fromBit;
    while BitAt(first, bit) == BitAt(last, bit)
      invariant fromBit <= bit <= d
      decreases d - bit
    {
      bit := bit + 1;
    }
  }

  /** findIndex of the first key with 1 at bit: zeros before it, ones from it on. */
  method FindSplit(entries: seq<Branch>, bit: nat) returns (split: nat)
    requires |entries| > 1 && (forall i :: 0 <= i < |entries| ==> entries[i].Leaf?) && BitAscends(entries, bit)
    requires KeyBit(entries[0].key, bit) == 0 && KeyBit(entries[|entries| - 1].key, bit) == 1
    ensures 0 < split < |entries|
    ensures forall i :: 0 <= i < split ==> KeyBit(entries[i].key, bit) == 0
    ensures forall i :: split <= i < |entries| ==> KeyBit(entries[i].key, bit) == 1
  {
    split := 0;
    while KeyBit(entries[split].key, bit) != 1
      invariant 0 <= split < |entries|
      invariant forall i :: 0 <= i < split ==> KeyBit(entries[i].key, bit) == 0
      decreases |entries| - split
    {
      split := split + 1;
    }
  }

  /** What buildBranch is called with: leaves in key order, alike below fromBit. */
  ghost predicate Accepted(h: Hasher, es: seq<Branch>, fromBit: nat) {
    |es| > 0 && AllLeaves(h, es) && InBitOrder(es) && AllAgreeBelow(es, fromBit)
  }

  /** split cuts the list at bit: both sides are accepted one bit further on. */
  ghost predicate CutsAt(h: Hasher, es: seq<Branch>, bit: nat, split: nat) {
    && 0 < split < |es| && Accepted(h, es, bit)
    && Accepted(h, es[..split], bit + 1) && Accepted(h, es[split..], bit + 1)
    && (forall i :: 0 <= i < split ==> KeyBit(es[i].key, bit) == 0)
    && (forall i :: split <= i < |es| ==> KeyBit(es[i].key, bit) == 1)
  }

  lemma {:induction false} SidesAccepted(h: Hasher, es: seq<Branch>, bit: nat, split: nat)
    requires Accepted(h, es, bit) && 0 < split < |es|
    requires forall i :: 0 <= i < split ==> KeyBit(es[i].key, bit) == 0
    requires forall i :: split <= i < |es| ==> KeyBit(es[i].key, bit) == 1
    ensures CutsAt(h, es, bit, split)
  {
    SideInOrder(es, 0, split);
    SideInOrder(es, split, |es|);
    SideAgreesFurther(es, 0, split, bit, 0);
    SideAgreesFurther(es, split, |es|, bit, 1);
    assert es[0..split] == es[..split] && es[split..|es|] == es[split..];
  }

  method Divide(h: Hasher, entries: seq<Branch>, fromBit: nat) returns (bit: nat, split: nat)
    requires |entries| > 1 && Accepted(h, entries, fromBit)
    ensures fromBit <= bit && CutsAt(h, entries, bit, split)
  {
    var first, last := Utf8(entries[0].key), Utf8(entries[|entries| - 1].key);
    assert AgreeBelow(entries[0].key, entries[|entries| - 1].key, fromBit);
    assert forall m: nat :: BitAt(first, m) == KeyBit(entries[0].key, m);
    assert forall m: nat :: BitAt(last, m) == KeyBit(entries[|entries| - 1].key, m);
    bit := FirstDisagreement(first, last, fromBit);
    EndsDecide(entries, bit);
    BitMonotone(entries, bit);
    split := FindSplit(entries, bit);
    SidesAccepted(h, entries, bit, split);
  }

  method BuildBranch(h: Hasher, entries: seq<Branch>, fromBit: nat) returns (t: Branch)
    requires Accepted(h, entries, fromBit)
    ensures Radix(t) && Hashed(h, t) && Leaves(t) == entries
    ensures t.Node? ==> t.bit >= fromBit
    decreases |entries|
  {
    if |entries| == 1 {
      return entries[0];
    }
    var bit, split := Divide(h, entries, fromBit);
    var left := BuildBranch(h, entries[..split], bit + 1);
    var right := BuildBranch(h, entries[split..], bit + 1);
    var hash := NodeHash(h, bit, left.hash, right.hash);
    t := Node(bit, left, right, hash);
    JoinRadix(h, entries, split, bit, left, right);
  }

  // ---------- buildViewTree ----------

  function BranchKey(b: Branch): JsString {
    match b
    case Leaf(k, _, _) => k
    case Node(_, _, _, _) => []
  }

  lemma {:induction false} StateOfLeaves(t: Branch, i: nat)
    requires Radix(t) && i < |Leaves(t)|
    ensures var e := Leaves(t)[i]; e.Leaf? && e.key in StateOf(t) && StateOf(t)[e.key] == e.value
  {
    if t.Node? {
      var l, r := Leaves(t.left), Leaves(t.right);
      LeavesAreKeys(t);
      if i < |l| {
        StateOfLeaves(t.left, i);
        assert (l + r)[i] == l[i];
      } else {
        StateOfLeaves(t.right, i - |l|);
        assert (l + r)[i] == r[i - |l|];
      }
    }
  }

  predicate TreeKey(k: JsString) {
    k != [] && IsAscii(k)
  }

  ghost predicate LeavesOf(h: Hasher, es: seq<Entry<LeafValue>>, leaves: seq<Branch>) {
    |leaves| == |es| && forall i :: 0 <= i < |es| ==> leaves[i] == MkLeaf(h, es[i].key, es[i].value)
  }

  lemma {:induction false} EntryOfLeaf(h: Hasher, es: seq<Entry<LeafValue>>, leaves: seq<Branch>, b: Branch)
    requires Distinct(es) && LeavesOf(h, es, leaves) && b in leaves
    ensures b.Leaf? && Hashed(h, b) && b.key in RecordOf(es) && b.value == RecordOf(es)[b.key]
    ensures (forall i :: 0 <= i < |es| ==> TreeKey(es[i].key)) ==> TreeKey(b.key)
  {
    RecordHas(es);
    var j :| 0 <= j < |leaves| && leaves[j] == b;
  }

  lemma {:induction false} LeafOfKey(h: Hasher, es: seq<Entry<LeafValue>>, leaves: seq<Branch>, k: JsString) returns (b: Branch)
    requires Distinct(es) && LeavesOf(h, es, leaves) && k in RecordOf(es)
    ensures b in leaves && b.Leaf? && b.key == k
  {
    RecordHas(es);
    var i :| 0 <= i < |es| && es[i].key == k;
    b := leaves[i];
  }

  lemma {:induction false} KeysFromEntries(h: Hasher, es: seq<Entry<LeafValue>>, leaves: seq<Branch>, t: Branch, k: JsString)
    requires Distinct(es) && LeavesOf(h, es, leaves)
    requires Radix(t) && multiset(Leaves(t)) == multiset(leaves) && k in Keys(t)
    ensures k in RecordOf(es) && StateOf(t)[k] == RecordOf(es)[k]
  {
    LeavesAreKeys(t);
    var i :| 0 <= i < |Leaves(t)| && Leaves(t)[i].key == k;
    StateOfLeaves(t, i);
    assert Leaves(t)[i] in multiset(Leaves(t));
    EntryOfLeaf(h, es, leaves, Leaves(t)[i]);
  }

  lemma {:induction false} EntriesInKeys(h: Hasher, es: seq<Entry<LeafValue>>, leaves: seq<Branch>, t: Branch, k: JsString)
    requires Distinct(es) && LeavesOf(h, es, leaves)
    requires multiset(Leaves(t)) == multiset(leaves) && k in RecordOf(es)
    ensures k in Keys(t)
  {
    LeavesAreKeys(t);
    var b := LeafOfKey(h, es, leaves, k);
    assert b in multiset(leaves) && b in Leaves(t);
    var j :| 0 <= j < |Leaves(t)| && Leaves(t)[j] == b;
  }

  /** A trie over the sorted leaves of a record holds that record. */
  lemma {:induction false} SortedLeavesHold(h: Hasher, es: seq<Entry<LeafValue>>, leaves: seq<Branch>, t: Branch)
    requires Distinct(es) && LeavesOf(h, es, leaves)
    requires Radix(t) && multiset(Leaves(t)) == multiset(leaves)
    ensures StateOf(t) == RecordOf(es)
  {
    forall k | k in Keys(t)
      ensures k in RecordOf(es) && StateOf(t)[k] == RecordOf(es)[k]
    {
      KeysFromEntries(h, es, leaves, t, k);
    }
    forall k | k in RecordOf(es)
      ensures k in Keys(t)
    {
      EntriesInKeys(h, es, leaves, t, k);
    }
  }

  lemma {:induction false} LeavesDistinct(h: Hasher, es: seq<Entry<LeafValue>>, leaves: seq<Branch>)
    requires Distinct(es) && LeavesOf(h, es, leaves)
    ensures DistinctKeys(leaves, BranchKey)
  {
    forall i, j | 0 <= i < j < |leaves|
      ensures BranchKey(leaves[i]) != BranchKey(leaves[j])
    {
      assert es[i].key != es[j].key;
    }
  }

  lemma {:induction false} SortedLeavesInBitOrder(h: Hasher, es: seq<Entry<LeafValue>>, leaves: seq<Branch>)
    requires Distinct(es) && KeysDiverge(RecordOf(es).Keys) && LeavesOf(h, es, leaves)
    requires forall i :: 0 <= i < |es| ==> TreeKey(es[i].key)
    ensures var sorted := SortBy(leaves, BranchKey);
            multiset(sorted) == multiset(leaves) && |sorted| == |es| && AllLeaves(h, sorted) && InBitOrder(sorted)
  {
    LeavesDistinct(h, es, leaves);
    SortSorts(leaves, BranchKey);
    var sorted := SortBy(leaves, BranchKey);
    forall i | 0 <= i < |sorted|
      ensures sorted[i].Leaf? && Hashed(h, sorted[i]) && IsAscii(sorted[i].key) && sorted[i].key in RecordOf(es)
    {
      assert sorted[i] in multiset(sorted);
      EntryOfLeaf(h, es, leaves, sorted[i]);
    }
    forall i, j | 0 <= i < j < |sorted|
      ensures Before(Utf8(sorted[i].key), Utf8(sorted[j].key))
    {
      assert LexLess(BranchKey(sorted[i]), BranchKey(sorted[j]));
      AsciiKeysInBitOrder(sorted[i].key, sorted[j].key, RecordOf(es).Keys);
    }
  }

  lemma {:induction false} AsciiKeysInBitOrder(a: JsString, b: JsString, ks: set<JsString>)
    requires a in ks && b in ks && KeysDiverge(ks) && IsAscii(a) && IsAscii(b) && LexLess(a, b)
    ensures Before(Utf8(a), Utf8(b))
  {
    Utf8OfAscii(a);
    Utf8OfAscii(b);
    LexTotal(a, b);
    LexLessIsBefore(Utf8(a), Utf8(b));
  }

  method DeriveLeaves(h: Hasher, entries: seq<Entry<LeafValue>>) returns (leaves: seq<Branch>)
    ensures LeavesOf(h, entries, leaves)
  {
    leaves := [];
    for i := 0 to |entries|
      invariant |leaves| == i
      invariant forall j :: 0 <= j < i ==> leaves[j] == MkLeaf(h, entries[j].key, entries[j].value)
    {
      var hash := DeriveLeafHash(h, entries[i].key, entries[i].value);
      leaves := leaves + [Leaf(entries[i].key, entries[i].value, hash)];
    }
  }

  /** The ASCII check over Object.keys(state): the first key it refuses, if any. */
  method FirstBadKey(entries: seq<Entry<LeafValue>>) returns (bad: Option<JsString>)
    ensures bad.None? ==> forall i :: 0 <= i < |entries| ==> TreeKey(entries[i].key)
    ensures bad.Some? ==> exists i :: 0 <= i < |entries| && entries[i].key == bad.value && !TreeKey(bad.value)
  {
    for i := 0 to |entries|
      invariant forall j :: 0 <= j < i ==> TreeKey(entries[j].key)
    {
      if !TreeKey(entries[i].key) {
        return Some(entries[i].key);
      }
    }
    bad := None;
  }

  method EmptyRoot(h: Hasher) returns (d: Digest)
    ensures d == h(EMPTY_PREIMAGE)
  {
    d := ConcatHash(h, [NODE_DOMAIN, U32(|TREE_VERSION|), TREE_VERSION, Ascii("empty")]);
    EmptyParts();
  }

  /** buildViewTree. The keys must be told apart by some bit, or its scan never ends (TrieExistsIff). */
  method BuildViewTree(h: Hasher, entries: seq<Entry<LeafValue>>) returns (r: Result<ViewTree, JsString>)
    requires Distinct(entries) && KeysDiverge(RecordOf(entries).Keys)
    ensures r.Ok? <==> forall k :: k in RecordOf(entries) ==> TreeKey(k)
    ensures r.Ok? ==> IsViewTree(h, r.value, RecordOf(entries))
    ensures r.Err? ==> !TreeKey(r.error) && r.error in RecordOf(entries)
  {
    RecordHas(entries);
    var bad := FirstBadKey(entries);
    if bad.Some? {
      return Err(bad.value);
    }
    var leaves := DeriveLeaves(h, entries);
    SortedLeavesInBitOrder(h, entries, leaves);
    var sorted := SortBy(leaves, BranchKey);
    if |sorted| == 0 {
      var d := EmptyRoot(h);
      return Ok(ViewTree(RootOf(d), None));
    }
    var node := BuildBranch(h, sorted, 0);
    SortedLeavesHold(h, entries, leaves, node);
    r := Ok(ViewTree(RootOf(node.hash), Some(node)));
  }

  lemma {:induction false} EmptyParts()
    ensures Flatten([NODE_DOMAIN, U32(|TREE_VERSION|), TREE_VERSION, Ascii("empty")]) == EMPTY_PREIMAGE
  {
    var parts := [NODE_DOMAIN, U32(|TREE_VERSION|), TREE_VERSION, Ascii("empty")];
    assert Flatten(parts[3..]) == parts[3];
    assert Flatten(parts[1..]) == Framed(TREE_VERSION) + parts[3];
  }

  /** The tree depends on the record alone: the order its entries were added in is forgotten. */
  lemma {:induction false} ArrivalOrderForgotten(h: Hasher, es: seq<Entry<LeafValue>>, fs: seq<Entry<LeafValue>>, v: ViewTree, w: ViewTree)
    requires Distinct(es) && Distinct(fs) && multiset(es) == multiset(fs)
    requires IsViewTree(h, v, RecordOf(es)) && IsViewTree(h, w, RecordOf(fs))
    ensures v == w
  {
    SameEntriesSameRecord(es, fs);
    ViewTreeUnique(h, v, w, RecordOf(es));
  }

  /** Keys without NULs, the wire grammar's among them, can always be told apart. */
  lemma {:induction false} NulFreeKeysDiverge(ks: set<JsString>)
    requires forall k :: k in ks ==> IsAscii(k) && 0 !in k
    ensures KeysDiverge(ks)
  {
    forall a, b | a in ks && b in ks && a != b
      ensures Diverge(Utf8(a), Utf8(b))
    {
      Utf8OfAscii(a);
      Utf8OfAscii(b);
      NulFreeDiverge(a, b);
    }
  }

  /** "a" and "a\0" are different keys that no bit tells apart: no trie holds both. */
  lemma {:induction false} TrailingNulHasNoTrie(h: Hasher, s: ViewState)
    requires Ascii("a") in s && [97, 0] in s
    ensures !exists t :: IsTrie(h, t, s)
  {
    var a: Bytes, b: Bytes := Ascii("a"), [97, 0];
    Utf8OfAscii(a);
    Utf8OfAscii(b);
    assert b[..1] == a;
    assert StripNuls(b) == StripNuls(b[..1]);
    DivergeIffStrippedDiffer(a, b);
    TrieExistsIff(h, s);
  }
}
