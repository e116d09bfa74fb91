/** diffViewTrees: an exact diff that skips equal-hash branches, and its semantic reading. */
module TrieDiff {
  import opened Prelude
  import opened JsText
  import opened Framing
  import opened Bits
  import opened ViewTrie
  import opened ViewCommitment
  import opened TrieBuild

  datatype Change = Change(key: JsString, from: LeafValue, to: LeafValue)

  datatype ViewDiff = ViewDiff(added: seq<JsString>, removed: seq<JsString>, changed: seq<Change>)

  const NO_DIFF := ViewDiff([], [], [])

  function Then(d: ViewDiff, e: ViewDiff): ViewDiff {
    ViewDiff(d.added + e.added, d.removed + e.removed, d.changed + e.changed)
  }

  lemma {:induction false} ThenLaws(c: ViewDiff, d: ViewDiff, e: ViewDiff)
    ensures Then(Then(c, d), e) == Then(c, Then(d, e))
    ensures Then(c, NO_DIFF) == c
  {
  }

  // ---------- what a diff should say ----------

  function Changes(s: ViewState, s': ViewState): set<Change> {
    set k | k in s && k in s' && s[k] != s'[k] :: Change(k, s[k], s'[k])
  }

  /** Exactly the keys added, removed and changed, each once. */
  ghost predicate Exact(d: ViewDiff, s: ViewState, s': ViewState) {
    && multiset(d.added) == multiset(s'.Keys - s.Keys)
    && multiset(d.removed) == multiset(s.Keys - s'.Keys)
    && multiset(d.changed) == multiset(Changes(s, s'))
  }

  // ---------- what the code computes ----------

  /** The Map collectLeaves fills: key to leaf. */
  function LeafMap(t: Branch): (m: map<JsString, Branch>)
    ensures m.Keys == Keys(t)
  {
    match t
    case Leaf(k, _, _) => map[k := t]
    case Node(_, l, r, _) => LeafMap(l) + LeafMap(r)
  }

  function LeafList(b: Option<Branch>): seq<Branch> {
    match b case None => [] case Some(t) => Leaves(t)
  }

  function LeafLookup(b: Option<Branch>): map<JsString, Branch> {
    match b case None => map[] case Some(t) => LeafMap(t)
  }

  /** The pushes for the leaves of one side against the Map of the other. */
  function Gone(la: seq<Branch>, lb: map<JsString, Branch>): seq<JsString> {
    if la == [] then [] else (if BranchKey(la[0]) in lb then [] else [BranchKey(la[0])]) + Gone(la[1..], lb)
  }

  predicate IsAltered(b: Branch, m: map<JsString, Branch>) {
    b.Leaf? && b.key in m && m[b.key].Leaf? && m[b.key].hash != b.hash
  }

  function AlteredAt(b: Branch, m: map<JsString, Branch>): Change
    requires IsAltered(b, m)
  {
    Change(b.key, b.value, m[b.key].value)
  }

  function Altered(la: seq<Branch>, lb: map<JsString, Branch>): seq<Change> {
    if la == [] then []
    else
      var x := la[0];
      (if IsAltered(x, lb) then [AlteredAt(x, lb)] else []) + Altered(la[1..], lb)
  }

  function SetCompare(a: Option<Branch>, b: Option<Branch>): ViewDiff {
    ViewDiff(Gone(LeafList(b), LeafLookup(a)), Gone(LeafList(a), LeafLookup(b)), Altered(LeafList(a), LeafLookup(b)))
  }

  predicate Skipped(a: Option<Branch>, b: Option<Branch>) {
    a.Some? && b.Some? && a.value.hash == b.value.hash
  }

  predicate Aligned(a: Option<Branch>, b: Option<Branch>) {
    a.Some? && b.Some? && a.value.Node? && b.value.Node? && a.value.bit == b.value.bit
  }

  function Walked(a: Option<Branch>, b: Option<Branch>): ViewDiff
    decreases |LeafList(a)|
  {
    if Skipped(a, b) then NO_DIFF
    else if Aligned(a, b) then
      Then(Walked(Some(a.value.left), Some(b.value.left)), Walked(Some(a.value.right), Some(b.value.right)))
    else SetCompare(a, b)
  }

  /** The three lists the walk pushes to. */
  class Collector {
    var added: seq<JsString>
    var removed: seq<JsString>
    var changed: seq<Change>

    constructor ()
      ensures Pushed() == NO_DIFF
    {
      added, removed, changed := [], [], [];
    }

    function Pushed(): ViewDiff
      reads this
    {
      ViewDiff(added, removed, changed)
    }

    method CompareLeaves(a: Option<Branch>, b: Option<Branch>)
      modifies this
      ensures Pushed() == Then(old(Pushed()), SetCompare(a, b))
    {
      PushFromOld(LeafList(a), LeafLookup(b));
      PushFromNew(LeafList(b), LeafLookup(a));
    }

    method PushFromOld(la: seq<Branch>, lb: map<JsString, Branch>)
      modifies `removed, `changed
      ensures removed == old(removed) + Gone(la, lb)
      ensures changed == old(changed) + Altered(la, lb)
    {
      var i := 0;
      while i < |la|
        invariant 0 <= i <= |la|
        invariant removed + Gone(la[i..], lb) == old(removed) + Gone(la, lb)
        invariant changed + Altered(la[i..], lb) == old(changed) + Altered(la, lb)
      {
        var leaf := la[i];
        assert la[i..][0] == leaf && la[i..][1..] == la[i + 1..];
        if BranchKey(leaf) !in lb {
          removed := removed + [BranchKey(leaf)];
        }
        if IsAltered(leaf, lb) {
          changed := changed + [AlteredAt(leaf, lb)];
        }
        i := i + 1;
      }
    }

    method PushFromNew(lb: seq<Branch>, la: map<JsString, Branch>)
      modifies `added
      ensures added == old(added) + Gone(lb, la)
    {
      var i := 0;
      while i < |lb|
        invariant 0 <= i <= |lb|
        invariant added + Gone(lb[i..], la) == old(added) + Gone(lb, la)
      {
        assert lb[i..][0] == lb[i] && lb[i..][1..] == lb[i + 1..];
        if BranchKey(lb[i]) !in la {
          added := added + [BranchKey(lb[i])];
        }
        i := i + 1;
      }
    }

    method Walk(a: Option<Branch>, b: Option<Branch>)
      modifies this
      ensures Pushed() == Then(old(Pushed()), Walked(a, b))
      decreases |LeafList(a)|
    {
      ghost var before := Pushed();
      ThenLaws(before, NO_DIFF, NO_DIFF);
      if Skipped(a, b) {
        return;
      }
      if Aligned(a, b) {
        ghost var l, r := Walked(Some(a.value.left), Some(b.value.left)), Walked(Some(a.value.right), Some(b.value.right));
        Walk(Some(a.value.left), Some(b.value.left));
        Walk(Some(a.value.right), Some(b.value.right));
        ThenLaws(before, l, r);
        assert Walked(a, b) == Then(l, r);
        return;
      }
      CompareLeaves(a, b);
    }
  }

  // ---------- set comparison is exact ----------

  function KeysOfList(ls: seq<Branch>): set<JsString> {
    set b | b in ls :: BranchKey(b)
  }

  lemma {:induction false} MultisetUnion<T>(x: set<T>, y: set<T>)
    requires x !! y
    ensures multiset(x + y) == multiset(x) + multiset(y)
  {
  }

  lemma {:induction false} OnceMore<T>(x: T, xs: seq<T>, s: set<T>)
    requires multiset(xs) == multiset(s) && x !in s
    ensures multiset([x] + xs) == multiset({x} + s)
  {
    MultisetUnion({x}, s);
  }

  lemma {:induction false} GoneExact(ls: seq<Branch>, m: map<JsString, Branch>)
    requires DistinctKeys(ls, BranchKey)
    ensures multiset(Gone(ls, m)) == multiset(KeysOfList(ls) - m.Keys)
  {
    if ls == [] {
      assert KeysOfList(ls) == {};
    } else {
      var k, rest := BranchKey(ls[0]), ls[1..];
      TailDistinct(ls);
      GoneExact(rest, m);
      ListKeysCons(ls);
      WithoutKeys(k, KeysOfList(rest), m.Keys);
      if k !in m {
        OnceMore(k, Gone(rest, m), KeysOfList(rest) - m.Keys);
      }
    }
  }

  lemma {:induction false} WithoutKeys(k: JsString, rest: set<JsString>, keys: set<JsString>)
    ensures ({k} + rest) - keys == if k in keys then rest - keys else {k} + (rest - keys)
  {
  }

  lemma {:induction false} ListKeysCons(ls: seq<Branch>)
    requires ls != []
    ensures KeysOfList(ls) == {BranchKey(ls[0])} + KeysOfList(ls[1..])
  {
    assert ls == [ls[0]] + ls[1..];
  }

  lemma {:induction false} TailDistinct(ls: seq<Branch>)
    requires DistinctKeys(ls, BranchKey) && ls != []
    ensures DistinctKeys(ls[1..], BranchKey) && BranchKey(ls[0]) !in KeysOfList(ls[1..])
  {
    forall i, j | 0 <= i < j < |ls[1..]|
      ensures BranchKey(ls[1..][i]) != BranchKey(ls[1..][j])
    {
      assert BranchKey(ls[i + 1]) != BranchKey(ls[j + 1]);
    }
    forall b | b in ls[1..]
      ensures BranchKey(b) != BranchKey(ls[0])
    {
      var i :| 0 <= i < |ls[1..]| && ls[1..][i] == b;
      assert BranchKey(ls[0]) != BranchKey(ls[i + 1]);
    }
  }

  ghost predicate ListHolds(ls: seq<Branch>, s: ViewState) {
    && DistinctKeys(ls, BranchKey) && KeysOfList(ls) == s.Keys
    && forall b :: b in ls ==> b.Leaf? && s[b.key] == b.value
  }

  ghost predicate MapHolds(m: map<JsString, Branch>, s: ViewState) {
    m.Keys == s.Keys && forall k :: k in m ==> m[k].Leaf? && m[k].key == k && m[k].value == s[k]
  }

  /** Leaf hashes tell values apart. */
  ghost predicate HashesTell(ls: seq<Branch>, m: map<JsString, Branch>) {
    forall b :: b in ls && b.Leaf? && b.key in m && m[b.key].Leaf? ==> (b.hash == m[b.key].hash <==> b.value == m[b.key].value)
  }

  function AlteredSet(ls: seq<Branch>, m: map<JsString, Branch>): set<Change> {
    set b | b in ls && IsAltered(b, m) :: AlteredAt(b, m)
  }

  lemma {:induction false} AlteredCons(ls: seq<Branch>, m: map<JsString, Branch>)
    requires ls != []
    ensures AlteredSet(ls, m) == (if IsAltered(ls[0], m) then {AlteredAt(ls[0], m)} else {}) + AlteredSet(ls[1..], m)
  {
    assert ls == [ls[0]] + ls[1..];
  }

  lemma {:induction false} AlteredExact(ls: seq<Branch>, m: map<JsString, Branch>)
    requires DistinctKeys(ls, BranchKey)
    ensures multiset(Altered(ls, m)) == multiset(AlteredSet(ls, m))
  {
    if ls == [] {
      assert AlteredSet(ls, m) == {};
    } else {
      var x, rest := ls[0], ls[1..];
      TailDistinct(ls);
      AlteredExact(rest, m);
      AlteredCons(ls, m);
      if IsAltered(x, m) {
        assert forall b :: b in rest ==> BranchKey(b) in KeysOfList(rest);
        assert AlteredAt(x, m) !in AlteredSet(rest, m);
        OnceMore(AlteredAt(x, m), Altered(rest, m), AlteredSet(rest, m));
      } else {
        assert Altered(ls, m) == Altered(rest, m);
      }
    }
  }

  lemma {:induction false} AlteredIsChanges(ls: seq<Branch>, m: map<JsString, Branch>, s: ViewState, s': ViewState)
    requires ListHolds(ls, s) && MapHolds(m, s') && HashesTell(ls, m)
    ensures AlteredSet(ls, m) == Changes(s, s')
  {
    forall c | c in Changes(s, s')
      ensures c in AlteredSet(ls, m)
    {
      assert c.key in KeysOfList(ls);
      var b :| b in ls && BranchKey(b) == c.key;
      assert IsAltered(b, m) && AlteredAt(b, m) == c;
    }
    forall c | c in AlteredSet(ls, m)
      ensures c in Changes(s, s')
    {
      var b :| b in ls && IsAltered(b, m) && AlteredAt(b, m) == c;
      assert b.key in KeysOfList(ls);
    }
  }

  lemma {:induction false} SetCompareExact(ls: seq<Branch>, ms: seq<Branch>, l: map<JsString, Branch>, m: map<JsString, Branch>, s: ViewState, s': ViewState)
    requires ListHolds(ls, s) && MapHolds(l, s) && ListHolds(ms, s') && MapHolds(m, s')
    requires HashesTell(ls, m)
    ensures Exact(ViewDiff(Gone(ms, l), Gone(ls, m), Altered(ls, m)), s, s')
  {
    GoneExact(ms, l);
    GoneExact(ls, m);
    AlteredExact(ls, m);
    AlteredIsChanges(ls, m, s, s');
  }

  lemma {:induction false} LeafListHolds(t: Branch)
    requires Radix(t)
    ensures ListHolds(Leaves(t), StateOf(t))
  {
    LeavesAreKeys(t);
    LeavesDistinctKeys(t);
    forall i | 0 <= i < |Leaves(t)|
      ensures Leaves(t)[i].Leaf? && Leaves(t)[i].key in StateOf(t) && StateOf(t)[Leaves(t)[i].key] == Leaves(t)[i].value
    {
      StateOfLeaves(t, i);
    }
    forall k | k in Keys(t)
      ensures k in KeysOfList(Leaves(t))
    {
      var i :| 0 <= i < |Leaves(t)| && Leaves(t)[i].key == k;
      assert Leaves(t)[i] in Leaves(t);
    }
    assert KeysOfList(Leaves(t)) == StateOf(t).Keys;
  }

  lemma {:induction false} LeavesDistinctKeys(t: Branch)
    requires Radix(t)
    ensures DistinctKeys(Leaves(t), BranchKey)
  {
    if t.Node? {
      var l, r := Leaves(t.left), Leaves(t.right);
      LeavesDistinctKeys(t.left);
      LeavesDistinctKeys(t.right);
      LeavesAreKeys(t.left);
      LeavesAreKeys(t.right);
      forall i, j | 0 <= i < j < |l + r|
        ensures BranchKey((l + r)[i]) != BranchKey((l + r)[j])
      {
        if i < |l| <= j {
          assert KeyBit(l[i].key, t.bit) == 0 && KeyBit(r[j - |l|].key, t.bit) == 1;
        } else if j < |l| {
          assert BranchKey(l[i]) != BranchKey(l[j]);
        } else {
          assert BranchKey(r[i - |l|]) != BranchKey(r[j - |l|]);
        }
      }
    }
  }

  lemma {:induction false} LeafMapHolds(t: Branch)
    requires Radix(t)
    ensures MapHolds(LeafMap(t), StateOf(t))
  {
    if t.Node? {
      LeafMapHolds(t.left);
      LeafMapHolds(t.right);
      MapsJoin(LeafMap(t.left), LeafMap(t.right), StateOf(t.left), StateOf(t.right));
    }
  }

  lemma {:induction false} MapsJoin(l: map<JsString, Branch>, r: map<JsString, Branch>, s: ViewState, s': ViewState)
    requires MapHolds(l, s) && MapHolds(r, s')
    ensures MapHolds(l + r, s + s')
  {
  }

  /** A leaf of t with its hash, whose pre-image was hashed when t was built. */
  ghost predicate MadeLeaf(h: Hasher, t: Branch, b: Branch) {
    b.Leaf? && Hashed(h, b) && SizedBranch(b) && LeafPreimage(b.key, b.value) in Preimages(t)
  }

  lemma {:induction false} LeavesAreMade(h: Hasher, t: Branch)
    requires Hashed(h, t) && SizedBranch(t)
    ensures forall b :: b in Leaves(t) ==> MadeLeaf(h, t, b)
    ensures forall k :: k in LeafMap(t) ==> MadeLeaf(h, t, LeafMap(t)[k])
  {
    if t.Node? {
      LeavesAreMade(h, t.left);
      LeavesAreMade(h, t.right);
    }
  }

  lemma {:induction false} LeafHashesTell(h: Hasher, t: Branch, u: Branch)
    requires Hashed(h, t) && SizedBranch(t) && Radix(u) && Hashed(h, u) && SizedBranch(u)
    ensures HashesTell(Leaves(t), LeafMap(u)) || Collide(h, Preimages(t), Preimages(u))
  {
    LeavesAreMade(h, t);
    LeavesAreMade(h, u);
    LeafMapHolds(u);
    var m := LeafMap(u);
    if !Collide(h, Preimages(t), Preimages(u)) {
      forall b | b in Leaves(t) && b.Leaf? && b.key in m && m[b.key].Leaf?
        ensures b.hash == m[b.key].hash <==> b.value == m[b.key].value
      {
        var c := m[b.key];
        assert MadeLeaf(h, t, b) && MadeLeaf(h, u, c);
        if b.hash == c.hash {
          assert LeafPreimage(b.key, b.value) == LeafPreimage(c.key, c.value);
          LeafPreimageInjective(b.key, b.value, c.key, c.value);
        }
      }
    }
  }

  // ---------- the walk is exact ----------

  function StateAt(b: Option<Branch>): ViewState {
    match b case None => map[] case Some(t) => StateOf(t)
  }

  function PreimagesAt(b: Option<Branch>): set<Bytes> {
    match b case None => {} case Some(t) => Preimages(t)
  }

  ghost predicate Proper(h: Hasher, b: Option<Branch>) {
    b.Some? ==> Radix(b.value) && Hashed(h, b.value) && SizedBranch(b.value)
  }

  lemma {:induction false} ListAndMapAt(h: Hasher, b: Option<Branch>)
    requires Proper(h, b)
    ensures ListHolds(LeafList(b), StateAt(b)) && MapHolds(LeafLookup(b), StateAt(b))
  {
    if b.Some? {
      LeafListHolds(b.value);
      LeafMapHolds(b.value);
    } else {
      assert KeysOfList([]) == {};
    }
  }

  lemma {:induction false} SidesKeys(l: set<JsString>, r: set<JsString>, l': set<JsString>, r': set<JsString>, bit: nat)
    requires forall k :: k in l || k in l' ==> KeyBit(k, bit) == 0
    requires forall k :: k in r || k in r' ==> KeyBit(k, bit) == 1
    ensures multiset((l + r) - (l' + r')) == multiset(l - l') + multiset(r - r')
  {
    assert (l + r) - (l' + r') == (l - l') + (r - r');
    MultisetUnion(l - l', r - r');
  }

  /** Keys on different sides of a bit never meet, so the diffs of the two sides add up. */
  lemma {:induction false} SidesAddUp(d: ViewDiff, e: ViewDiff, l: ViewState, r: ViewState, l': ViewState, r': ViewState, bit: nat)
    requires Exact(d, l, l') && Exact(e, r, r')
    requires forall k :: k in l || k in l' ==> KeyBit(k, bit) == 0
    requires forall k :: k in r || k in r' ==> KeyBit(k, bit) == 1
    ensures Exact(Then(d, e), l + r, l' + r')
  {
    SidesKeys(l'.Keys, r'.Keys, l.Keys, r.Keys, bit);
    SidesKeys(l.Keys, r.Keys, l'.Keys, r'.Keys, bit);
    SidesChange(l, r, l', r', bit);
    MultisetUnion(Changes(l, l'), Changes(r, r'));
    assert (l + r).Keys == l.Keys + r.Keys && (l' + r').Keys == l'.Keys + r'.Keys;
  }

  lemma {:induction false} SidesChange(l: ViewState, r: ViewState, l': ViewState, r': ViewState, bit: nat)
    requires forall k :: k in l || k in l' ==> KeyBit(k, bit) == 0
    requires forall k :: k in r || k in r' ==> KeyBit(k, bit) == 1
    ensures Changes(l + r, l' + r') == Changes(l, l') + Changes(r, r')
    ensures Changes(l, l') !! Changes(r, r')
  {
    var s, s' := l + r, l' + r';
    forall c | c in Changes(s, s')
      ensures c in Changes(l, l') + Changes(r, r')
    {
      assert c.key in s && c.key in s';
      assert c.key in l' <==> c.key !in r';
      assert c.key in l <==> c.key !in r;
      assert c.key in l ==> c.key in l' && s[c.key] == l[c.key] && s'[c.key] == l'[c.key];
    }
    forall c | c in Changes(l, l')
      ensures c in Changes(s, s')
    {
      assert c.key !in r && c.key !in r';
      assert s[c.key] == l[c.key] && s'[c.key] == l'[c.key];
    }
    forall c | c in Changes(r, r')
      ensures c in Changes(s, s')
    {
      assert s[c.key] == r[c.key] && s'[c.key] == r'[c.key];
    }
  }

  lemma {:induction false} SameStateNoDiff(s: ViewState)
    ensures Exact(NO_DIFF, s, s)
  {
    assert Changes(s, s) == {} && s.Keys - s.Keys == {};
  }

  lemma {:induction false} WalkExact(h: Hasher, a: Option<Branch>, b: Option<Branch>)
    requires Proper(h, a) && Proper(h, b)
    ensures Exact(Walked(a, b), StateAt(a), StateAt(b)) || Collide(h, PreimagesAt(a), PreimagesAt(b))
    decreases |LeafList(a)|
  {
    if Skipped(a, b) {
      BranchBinding(h, a.value, b.value);
      SameStateNoDiff(StateAt(a));
    } else if Aligned(a, b) {
      var t, u := a.value, b.value;
      WalkExact(h, Some(t.left), Some(u.left));
      WalkExact(h, Some(t.right), Some(u.right));
      CollideMonotone(h, Preimages(t.left), Preimages(u.left), Preimages(t), Preimages(u));
      CollideMonotone(h, Preimages(t.right), Preimages(u.right), Preimages(t), Preimages(u));
      if !Collide(h, Preimages(t), Preimages(u)) {
        SidesAddUp(Walked(Some(t.left), Some(u.left)), Walked(Some(t.right), Some(u.right)),
                   StateOf(t.left), StateOf(t.right), StateOf(u.left), StateOf(u.right), t.bit);
      }
    } else {
      CompareExact(h, a, b);
    }
  }

  lemma {:induction false} CompareExact(h: Hasher, a: Option<Branch>, b: Option<Branch>)
    requires Proper(h, a) && Proper(h, b)
    ensures Exact(SetCompare(a, b), StateAt(a), StateAt(b)) || Collide(h, PreimagesAt(a), PreimagesAt(b))
  {
    ListAndMapAt(h, a);
    ListAndMapAt(h, b);
    if a.Some? && b.Some? {
      LeafHashesTell(h, a.value, b.value);
    } else {
      assert HashesTell(LeafList(a), LeafLookup(b));
    }
    if HashesTell(LeafList(a), LeafLookup(b)) {
      SetCompareExact(LeafList(a), LeafList(b), LeafLookup(a), LeafLookup(b), StateAt(a), StateAt(b));
    }
  }

  // ---------- diffViewTrees ----------

  function Itself(k: JsString): JsString { k }

  function ChangeKey(c: Change): JsString { c.key }

  lemma {:induction false} SortedOnce(xs: seq<JsString>, s: set<JsString>)
    requires multiset(xs) == multiset(s)
    ensures Ascending(SortBy(xs, Itself), Itself)
    ensures multiset(SortBy(xs, Itself)) == multiset(s)
  {
    OnceEach(xs, s);
    SortSorts(xs, Itself);
  }

  lemma {:induction false} SortedChanges(cs: seq<Change>, s: ViewState, s': ViewState)
    requires multiset(cs) == multiset(Changes(s, s'))
    ensures Ascending(SortBy(cs, ChangeKey), ChangeKey)
    ensures multiset(SortBy(cs, ChangeKey)) == multiset(Changes(s, s'))
  {
    OnceEach(cs, Changes(s, s'));
    forall i, j | 0 <= i < j < |cs|
      ensures ChangeKey(cs[i]) != ChangeKey(cs[j])
    {
      assert cs[i] in Changes(s, s') && cs[j] in Changes(s, s');
    }
    SortSorts(cs, ChangeKey);
  }

  function Sorted(d: ViewDiff): ViewDiff {
    ViewDiff(SortBy(d.added, Itself), SortBy(d.removed, Itself), SortBy(d.changed, ChangeKey))
  }

  /** The diff of two view trees: sorted, and exact unless the trees exhibit a collision. */
  ghost predicate SortedAndExact(d: ViewDiff, s: ViewState, s': ViewState) {
    && Exact(d, s, s')
    && Ascending(d.added, Itself) && Ascending(d.removed, Itself) && Ascending(d.changed, ChangeKey)
  }

  method DiffViewTrees(h: Hasher, from: ViewTree, to: ViewTree, ghost s: ViewState, ghost s': ViewState) returns (d: ViewDiff)
    requires IsViewTree(h, from, s) && IsViewTree(h, to, s') && SizedState(s) && SizedState(s')
    ensures SortedAndExact(d, s, s') || Collide(h, PreimagesAt(from.node), PreimagesAt(to.node))
    ensures d == Sorted(Walked(from.node, to.node))
  {
    var c := new Collector();
    c.Walk(from.node, to.node);
    d := Sorted(c.Pushed());
    assert Then(NO_DIFF, Walked(from.node, to.node)) == Walked(from.node, to.node);
    DiffIsExact(h, from, to, s, s');
  }

  /** Any two built trees: the walk reports exactly the messages that differ, or a collision is exhibited. */
  lemma {:induction false} DiffIsExact(h: Hasher, from: ViewTree, to: ViewTree, s: ViewState, s': ViewState)
    requires IsViewTree(h, from, s) && IsViewTree(h, to, s') && SizedState(s) && SizedState(s')
    ensures SortedAndExact(Sorted(Walked(from.node, to.node)), s, s') || Collide(h, PreimagesAt(from.node), PreimagesAt(to.node))
  {
    if from.node.Some? {
      SizedTrie(from.node.value);
    }
    if to.node.Some? {
      SizedTrie(to.node.value);
    }
    WalkExact(h, from.node, to.node);
    var d := Walked(from.node, to.node);
    if Exact(d, s, s') {
      SortedOnce(d.added, s'.Keys - s.Keys);
      SortedOnce(d.removed, s.Keys - s'.Keys);
      SortedChanges(d.changed, s, s');
    }
  }

  // ---------- applying a diff ----------

  ghost function PatchedValue(d: ViewDiff, s: ViewState, source: ViewState, k: JsString): LeafValue
    requires k in s || k in source
  {
    if k in d.added && k in source then source[k]
    else if c: Change :| c in d.changed && c.key == k then c.to
    else if k in s then s[k] else source[k]
  }

  /** The old state with the diff applied; values of added messages are read in the new state. */
  ghost function Apply(d: ViewDiff, s: ViewState, source: ViewState): ViewState {
    map k | k in s.Keys + source.Keys && k !in d.removed && (k in s || k in d.added) :: PatchedValue(d, s, source, k)
  }

  lemma {:induction false} PatchedIsNew(d: ViewDiff, s: ViewState, s': ViewState, k: JsString)
    requires k in s' && (forall x :: x in d.added <==> x in s'.Keys - s.Keys)
    requires forall c :: c in d.changed <==> c in Changes(s, s')
    ensures PatchedValue(d, s, s', k) == s'[k]
  {
    if k in s && s[k] != s'[k] {
      assert Change(k, s[k], s'[k]) in Changes(s, s');
    }
  }

  lemma {:induction false} ApplyKeys(d: ViewDiff, s: ViewState, s': ViewState)
    requires forall x :: x in d.added <==> x in s'.Keys - s.Keys
    requires forall x :: x in d.removed <==> x in s.Keys - s'.Keys
    ensures Apply(d, s, s').Keys == s'.Keys
  {
  }

  lemma {:induction false} ApplyGivesNew(d: ViewDiff, s: ViewState, s': ViewState)
    requires Exact(d, s, s')
    ensures Apply(d, s, s') == s'
  {
    OnceEach(d.added, s'.Keys - s.Keys);
    OnceEach(d.removed, s.Keys - s'.Keys);
    OnceEach(d.changed, Changes(s, s'));
    ApplyKeys(d, s, s');
    forall k | k in s'
      ensures PatchedValue(d, s, s', k) == s'[k]
    {
      PatchedIsNew(d, s, s', k);
    }
  }

  // ---------- classifyChanges ----------

  datatype DialogChange =
    | MessageAdded(id: JsString)
    | MessageRemoved(id: JsString)
    | MessageEdited(id: JsString, oldVersion: JsString, newVersion: JsString)
    | MessageDeleted(id: JsString, oldVersion: JsString, newVersion: JsString)
    | MessageRestored(id: JsString, oldVersion: JsString, newVersion: JsString)

  function ClassifyChange(c: Change): DialogChange {
    if !c.from.deleted && c.to.deleted then MessageDeleted(c.key, c.from.signHash, c.to.signHash)
    else if c.from.deleted && !c.to.deleted then MessageRestored(c.key, c.from.signHash, c.to.signHash)
    else MessageEdited(c.key, c.from.signHash, c.to.signHash)
  }

  method ClassifyChanges(d: ViewDiff) returns (changes: seq<DialogChange>)
    ensures changes == Classified(d)
  {
    changes := [];
    for i := 0 to |d.added|
      invariant changes == seq(i, j requires 0 <= j < i => MessageAdded(d.added[j]))
    {
      changes := changes + [MessageAdded(d.added[i])];
    }
    ghost var first := changes;
    for i := 0 to |d.removed|
      invariant changes == first + seq(i, j requires 0 <= j < i => MessageRemoved(d.removed[j]))
    {
      changes := changes + [MessageRemoved(d.removed[i])];
    }
    ghost var second := changes;
    for i := 0 to |d.changed|
      invariant changes == second + seq(i, j requires 0 <= j < i => ClassifyChange(d.changed[j]))
    {
      changes := changes + [ClassifyChange(d.changed[i])];
    }
  }

  function Classified(d: ViewDiff): seq<DialogChange> {
    seq(|d.added|, j requires 0 <= j < |d.added| => MessageAdded(d.added[j]))
    + seq(|d.removed|, j requires 0 <= j < |d.removed| => MessageRemoved(d.removed[j]))
    + seq(|d.changed|, j requires 0 <= j < |d.changed| => ClassifyChange(d.changed[j]))
  }

  ghost predicate Lists<T(!new)>(xs: seq<T>, s: set<T>) {
    (forall i, j :: 0 <= i < j < |xs| ==> xs[i] != xs[j]) && forall x :: x in xs <==> x in s
  }

  ghost predicate ListsDiff(d: ViewDiff, s: ViewState, s': ViewState) {
    Lists(d.added, s'.Keys - s.Keys) && Lists(d.removed, s.Keys - s'.Keys) && Lists(d.changed, Changes(s, s'))
  }

  /** Both views have the message, at these revisions. */
  predicate Both(s: ViewState, s': ViewState, k: JsString, a: JsString, b: JsString) {
    k in s && k in s' && s[k].signHash == a && s'[k].signHash == b
  }

  /** What became of every message between two views, each told once, with both revisions, and nothing else. */
  ghost predicate TellsFates(changes: seq<DialogChange>, s: ViewState, s': ViewState) {
    && (forall k :: MessageAdded(k) in changes <==> k in s' && k !in s)
    && (forall k :: MessageRemoved(k) in changes <==> k in s && k !in s')
    && (forall k, a, b :: MessageEdited(k, a, b) in changes <==> Both(s, s', k, a, b) && s[k] != s'[k] && s[k].deleted == s'[k].deleted)
    && (forall k, a, b :: MessageDeleted(k, a, b) in changes <==> Both(s, s', k, a, b) && !s[k].deleted && s'[k].deleted)
    && (forall k, a, b :: MessageRestored(k, a, b) in changes <==> Both(s, s', k, a, b) && s[k].deleted && !s'[k].deleted)
    && (forall i, j :: 0 <= i < j < |changes| ==> changes[i].id != changes[j].id)
  }

  /** A list is told of exactly by its entries. */
  lemma {:induction false} InClassified(d: ViewDiff, x: DialogChange)
    ensures x in Classified(d) <==>
            (x.MessageAdded? && x.id in d.added) || (x.MessageRemoved? && x.id in d.removed)
            || exists c :: c in d.changed && ClassifyChange(c) == x
  {
    var cs, n, m := Classified(d), |d.added|, |d.added| + |d.removed|;
    if x.MessageAdded? && x.id in d.added {
      var i :| 0 <= i < n && d.added[i] == x.id;
      assert cs[i] == x;
    } else if x.MessageRemoved? && x.id in d.removed {
      var i :| 0 <= i < |d.removed| && d.removed[i] == x.id;
      assert cs[n + i] == x;
    } else if c :| c in d.changed && ClassifyChange(c) == x {
      var i :| 0 <= i < |d.changed| && d.changed[i] == c;
      assert cs[m + i] == x;
    }
  }

  lemma {:induction false} ChangeListed(d: ViewDiff, s: ViewState, s': ViewState, x: DialogChange)
    requires ListsDiff(d, s, s') && !x.MessageAdded? && !x.MessageRemoved?
    ensures x in Classified(d) <==>
            Both(s, s', x.id, x.oldVersion, x.newVersion) && s[x.id] != s'[x.id] && x == ClassifyChange(Change(x.id, s[x.id], s'[x.id]))
  {
    InClassified(d, x);
    if Both(s, s', x.id, x.oldVersion, x.newVersion) && s[x.id] != s'[x.id] {
      assert Change(x.id, s[x.id], s'[x.id]) in Changes(s, s');
    }
  }

  lemma {:induction false} FatesApart(d: ViewDiff, s: ViewState, s': ViewState, i: nat, j: nat)
    requires ListsDiff(d, s, s') && i < j < |Classified(d)|
    ensures Classified(d)[i].id != Classified(d)[j].id
  {
    var n, m := |d.added|, |d.added| + |d.removed|;
    if m <= i {
      var c, e := d.changed[i - m], d.changed[j - m];
      assert c != e && c in Changes(s, s') && e in Changes(s, s');
    } else if j < n {
      assert d.added[i] != d.added[j];
    } else if n <= i && j < m {
      assert d.removed[i - n] != d.removed[j - n];
    } else if i < n {
      assert d.added[i] in s'.Keys - s.Keys;
      assert j < m ==> d.removed[j - n] in s.Keys - s'.Keys;
      assert m <= j ==> d.changed[j - m] in Changes(s, s');
    } else {
      assert d.removed[i - n] in s.Keys - s'.Keys && d.changed[j - m] in Changes(s, s');
    }
  }

  /** The list of changes tells the fate of every message that differs, once, and nothing else. */
  lemma {:induction false} ClassifiedTellsFates(d: ViewDiff, s: ViewState, s': ViewState)
    requires Exact(d, s, s')
    ensures TellsFates(Classified(d), s, s')
  {
    OnceEach(d.added, s'.Keys - s.Keys);
    OnceEach(d.removed, s.Keys - s'.Keys);
    OnceEach(d.changed, Changes(s, s'));
    assert ListsDiff(d, s, s');
    forall k
      ensures MessageAdded(k) in Classified(d) <==> k in s' && k !in s
      ensures MessageRemoved(k) in Classified(d) <==> k in s && k !in s'
    {
      InClassified(d, MessageAdded(k));
      InClassified(d, MessageRemoved(k));
    }
    forall k, a, b
      ensures MessageEdited(k, a, b) in Classified(d) <==> Both(s, s', k, a, b) && s[k] != s'[k] && s[k].deleted == s'[k].deleted
      ensures MessageDeleted(k, a, b) in Classified(d) <==> Both(s, s', k, a, b) && !s[k].deleted && s'[k].deleted
      ensures MessageRestored(k, a, b) in Classified(d) <==> Both(s, s', k, a, b) && s[k].deleted && !s'[k].deleted
    {
      ChangeListed(d, s, s', MessageEdited(k, a, b));
      ChangeListed(d, s, s', MessageDeleted(k, a, b));
      ChangeListed(d, s, s', MessageRestored(k, a, b));
    }
    forall i, j | 0 <= i < j < |Classified(d)|
      ensures Classified(d)[i].id != Classified(d)[j].id
    {
      FatesApart(d, s, s', i, j);
    }
  }
}
