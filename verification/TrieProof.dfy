/** Inclusion proofs: proveViewKey, verifyViewProof, and why an accepted step list proves membership. */
module TrieProof {
  import opened Prelude
  import opened JsText
  import opened Framing
  import opened Bits
  import opened ViewTrie
  import opened ViewCommitment

  /** A step as it arrives: any number, any strings. */
  datatype ProofStep = ProofStep(bit: real, sibling: JsString, side: JsString)

  const LEFT: Bytes := Ascii("left")
  const RIGHT: Bytes := Ascii("right")

  /** SIBLING_HEX: 128 lower-case hex digits. */
  predicate IsSiblingHex(s: JsString) {
    |s| == 128 && forall i :: 0 <= i < |s| ==> IsHexDigit(s[i])
  }

  predicate GoodStep(p: ProofStep) {
    IsSiblingHex(p.sibling) && (p.side == LEFT || p.side == RIGHT) && p.bit.Floor as real == p.bit && p.bit >= 0.0
  }

  function SiblingOf(p: ProofStep): Digest
    requires GoodStep(p)
  {
    HexToBytes(p.sibling)
  }

  /** The pre-image a step hashes on top of the digest below it. */
  function StepPreimage(p: ProofStep, below: Digest): Bytes
    requires GoodStep(p)
  {
    if p.side == LEFT then NodePreimage(p.bit.Floor, SiblingOf(p), below)
    else NodePreimage(p.bit.Floor, below, SiblingOf(p))
  }

  /** The digest the verifier reaches from the leaf, and every input it hashes on the way. */
  function Climb(h: Hasher, leaf: Bytes, steps: seq<ProofStep>): Digest
    requires forall i :: 0 <= i < |steps| ==> GoodStep(steps[i])
  {
    h(TopInput(h, leaf, steps))
  }

  function TopInput(h: Hasher, leaf: Bytes, steps: seq<ProofStep>): Bytes
    requires forall i :: 0 <= i < |steps| ==> GoodStep(steps[i])
    decreases |steps|, 0
  {
    if steps == [] then leaf else StepPreimage(steps[0], h(TopInput(h, leaf, steps[1..])))
  }

  function Inputs(h: Hasher, leaf: Bytes, steps: seq<ProofStep>): (s: set<Bytes>)
    requires forall i :: 0 <= i < |steps| ==> GoodStep(steps[i])
    ensures TopInput(h, leaf, steps) in s
  {
    {TopInput(h, leaf, steps)} + (if steps == [] then {} else Inputs(h, leaf, steps[1..]))
  }

  // ---------- verifyViewProof ----------

  ghost predicate Accepts(h: Hasher, root: JsString, key: JsString, value: LeafValue, steps: seq<ProofStep>) {
    (forall i :: 0 <= i < |steps| ==> GoodStep(steps[i])) && root == RootOf(Climb(h, LeafPreimage(key, value), steps))
  }

  method VerifyViewProof(h: Hasher, root: JsString, key: JsString, value: LeafValue, steps: seq<ProofStep>) returns (ok: bool)
    ensures ok <==> Accepts(h, root, key, value, steps)
  {
    var hash := DeriveLeafHash(h, key, value);
    var i := |steps|;
    assert steps[|steps|..] == [];
    while i > 0
      invariant 0 <= i <= |steps|
      invariant forall j :: i <= j < |steps| ==> GoodStep(steps[j])
      invariant hash == Climb(h, LeafPreimage(key, value), steps[i..])
    {
      i := i - 1;
      var step := steps[i];
      if !GoodStep(step) {
        return false;
      }
      var sibling := SiblingOf(step);
      ghost var below := hash;
      if step.side == LEFT {
        hash := NodeHash(h, step.bit.Floor, sibling, hash);
      } else {
        hash := NodeHash(h, step.bit.Floor, hash, sibling);
      }
      assert hash == h(StepPreimage(step, below));
      assert steps[i..][0] == step && steps[i..][1..] == steps[i + 1..];
    }
    assert steps[0..] == steps;
    ok := root == RootOf(hash);
  }

  // ---------- proveViewKey ----------

  function StepAt(t: Branch, key: JsString): ProofStep
    requires t.Node?
  {
    if KeyBit(key, t.bit) == 1 then ProofStep(t.bit as real, BytesToHex(t.left.hash), LEFT)
    else ProofStep(t.bit as real, BytesToHex(t.right.hash), RIGHT)
  }

  function Toward(t: Branch, key: JsString): (u: Branch)
    requires t.Node?
    ensures u == t.left || u == t.right
  {
    if KeyBit(key, t.bit) == 1 then t.right else t.left
  }

  function SearchLeaf(t: Branch, key: JsString): (u: Branch)
    ensures u.Leaf?
  {
    if t.Leaf? then t else SearchLeaf(Toward(t, key), key)
  }

  function PathSteps(t: Branch, key: JsString): seq<ProofStep> {
    if t.Leaf? then [] else [StepAt(t, key)] + PathSteps(Toward(t, key), key)
  }

  function ProofFor(tree: ViewTree, key: JsString): Option<seq<ProofStep>> {
    if tree.node.Some? && SearchLeaf(tree.node.value, key).key == key then Some(PathSteps(tree.node.value, key)) else None
  }

  method ProveViewKey(tree: ViewTree, key: JsString) returns (proof: Option<seq<ProofStep>>)
    ensures proof == ProofFor(tree, key)
  {
    if tree.node.None? {
      return None;
    }
    var path: seq<ProofStep> := [];
    var branch := tree.node.value;
    while branch.Node?
      invariant path + PathSteps(branch, key) == PathSteps(tree.node.value, key)
      invariant SearchLeaf(branch, key) == SearchLeaf(tree.node.value, key)
      decreases branch
    {
      path := path + [StepAt(branch, key)];
      branch := Toward(branch, key);
    }
    assert path == PathSteps(tree.node.value, key);
    if branch.key != key {
      return None;
    }
    proof := Some(path);
  }

  // ---------- completeness ----------

  lemma {:induction false} SearchFindsKey(t: Branch, key: JsString)
    requires Radix(t)
    ensures key in Keys(t) <==> SearchLeaf(t, key).key == key
    ensures key in Keys(t) ==> SearchLeaf(t, key).value == StateOf(t)[key]
  {
    if t.Node? {
      SearchFindsKey(Toward(t, key), key);
      NodeSplitsState(t);
    }
  }

  lemma {:induction false} StepIsGood(t: Branch, key: JsString)
    requires t.Node?
    ensures GoodStep(StepAt(t, key))
    ensures StepPreimage(StepAt(t, key), Toward(t, key).hash) == NodePreimage(t.bit, t.left.hash, t.right.hash)
  {
    HexRoundTrip(t.left.hash);
    HexRoundTrip(t.right.hash);
    assert LEFT != RIGHT;
  }

  lemma {:induction false} PathClimbs(h: Hasher, t: Branch, key: JsString)
    requires Hashed(h, t)
    ensures forall i :: 0 <= i < |PathSteps(t, key)| ==> GoodStep(PathSteps(t, key)[i])
    ensures var l := SearchLeaf(t, key); Climb(h, LeafPreimage(l.key, l.value), PathSteps(t, key)) == t.hash
  {
    if t.Node? {
      StepIsGood(t, key);
      PathClimbs(h, Toward(t, key), key);
      assert PathSteps(t, key)[1..] == PathSteps(Toward(t, key), key);
    }
  }

  /** A key of the state gets a proof, and it verifies with the state's value; an absent key gets none. */
  lemma {:induction false} ProofsComplete(h: Hasher, vt: ViewTree, s: ViewState, key: JsString)
    requires IsViewTree(h, vt, s)
    ensures key in s <==> ProofFor(vt, key).Some?
    ensures key in s ==> Accepts(h, vt.root, key, s[key], ProofFor(vt, key).value)
  {
    if vt.node.Some? {
      SearchFindsKey(vt.node.value, key);
      PathClimbs(h, vt.node.value, key);
    }
  }

  // ---------- soundness ----------

  /** The value a proof is accepted for: as given, but for unpaired surrogates, which are hashed as U+FFFD. */
  ghost predicate Holds(s: ViewState, key: JsString, value: LeafValue) {
    key in s && s[key] == RepairedValue(value)
  }

  lemma {:induction false} ClimbMeetsTrie(h: Hasher, t: Branch, key: JsString, value: LeafValue, steps: seq<ProofStep>)
    requires Hashed(h, t) && SizedState(StateOf(t)) && Radix(t)
    requires forall i :: 0 <= i < |steps| ==> GoodStep(steps[i])
    requires Climb(h, LeafPreimage(key, value), steps) == t.hash
    ensures Holds(StateOf(t), key, value) || Collide(h, Inputs(h, LeafPreimage(key, value), steps), Preimages(t))
  {
    var leaf := LeafPreimage(key, value);
    var top := TopInput(h, leaf, steps);
    HashIsTop(h, t);
    if top != TopPreimage(t) {
      assert top in Inputs(h, leaf, steps) && TopPreimage(t) in Preimages(t);
    } else if steps == [] {
      LeafIsTop(t, key, value);
    } else {
      var below := Climb(h, leaf, steps[1..]);
      var side := StepIntoNode(t, key, value, steps[0], below);
      NodeSplitsState(t);
      ClimbMeetsTrie(h, side, key, value, steps[1..]);
      CollideMonotone(h, Inputs(h, leaf, steps[1..]), Preimages(side), Inputs(h, leaf, steps), Preimages(t));
    }
  }

  lemma {:induction false} LeafIsTop(t: Branch, key: JsString, value: LeafValue)
    requires SizedState(StateOf(t)) && LeafPreimage(key, value) == TopPreimage(t)
    ensures t.Leaf? && Holds(StateOf(t), key, value)
  {
    if t.Leaf? {
      assert StateOf(t)[t.key] == t.value;
      Utf8OfAscii(t.key);
      LeafPreimageBinds(key, value, t.key, t.value);
      RepairedAscii(key);
    } else {
      DomainsApart(key, value, t.bit, t.left.hash, t.right.hash);
    }
  }

  /** A step whose pre-image is the top one of t names one of t's branches. */
  lemma {:induction false} StepIntoNode(t: Branch, key: JsString, value: LeafValue, p: ProofStep, below: Digest) returns (side: Branch)
    requires GoodStep(p) && StepPreimage(p, below) == TopPreimage(t)
    ensures t.Node? && (side == t.left || side == t.right) && below == side.hash
  {
    var l, r := if p.side == LEFT then SiblingOf(p) else below, if p.side == LEFT then below else SiblingOf(p);
    if t.Leaf? {
      DomainsApart(t.key, t.value, p.bit.Floor, l, r);
    }
    NodePreimageInjective(p.bit.Floor, l, r, t.bit, t.left.hash, t.right.hash);
    side := if p.side == LEFT then t.right else t.left;
  }

  lemma {:induction false} EmptyTreeRefuses(h: Hasher, key: JsString, value: LeafValue, steps: seq<ProofStep>)
    requires forall i :: 0 <= i < |steps| ==> GoodStep(steps[i])
    ensures TopInput(h, LeafPreimage(key, value), steps) != EMPTY_PREIMAGE
  {
    var zeros := seq(64, _ => 0);
    if steps == [] {
      DomainsApart(key, value, 0, zeros, zeros);
    } else {
      var p, below := steps[0], Climb(h, LeafPreimage(key, value), steps[1..]);
      if p.side == LEFT {
        DomainsApart(key, value, p.bit.Floor, SiblingOf(p), below);
      } else {
        DomainsApart(key, value, p.bit.Floor, below, SiblingOf(p));
      }
    }
  }

  /** Whatever key, value and step list are accepted against a built tree's root, the state holds that value for that
      key, though no step's bit or side is ever compared with the key; or a collision is exhibited. */
  lemma {:induction false} ProofsSound(h: Hasher, vt: ViewTree, s: ViewState, key: JsString, value: LeafValue, steps: seq<ProofStep>)
    requires IsViewTree(h, vt, s) && SizedState(s)
    requires Accepts(h, vt.root, key, value, steps)
    ensures Holds(s, key, value) || Collide(h, Inputs(h, LeafPreimage(key, value), steps), TreePreimages(vt))
    ensures WellFormed(value.signHash) && Holds(s, key, value) ==> s[key] == value
  {
    var leaf := LeafPreimage(key, value);
    RootOfInjective(Climb(h, leaf, steps), TopDigest(h, vt));
    RepairsIllFormed(value.signHash);
    match vt.node
    case Some(t) =>
      ClimbMeetsTrie(h, t, key, value, steps);
    case None =>
      EmptyTreeRefuses(h, key, value, steps);
      assert TopInput(h, leaf, steps) in Inputs(h, leaf, steps);
  }

  /** Which values a key's own proof is accepted for: up to collisions, exactly those the state holds. */
  lemma {:induction false} OwnProofAccepts(h: Hasher, vt: ViewTree, s: ViewState, key: JsString, value: LeafValue)
    requires IsViewTree(h, vt, s) && SizedState(s) && key in s
    ensures var steps := ProofFor(vt, key);
            steps.Some? && (Holds(s, key, value) ==> Accepts(h, vt.root, key, value, steps.value))
            && (Accepts(h, vt.root, key, value, steps.value) ==>
                  Holds(s, key, value) || Collide(h, Inputs(h, LeafPreimage(key, value), steps.value), TreePreimages(vt)))
  {
    ProofsComplete(h, vt, s, key);
    var steps := ProofFor(vt, key).value;
    if Holds(s, key, value) {
      RepairKeepsUtf8(value.signHash);
      assert LeafPreimage(key, value) == LeafPreimage(key, s[key]);
    }
    if Accepts(h, vt.root, key, value, steps) {
      ProofsSound(h, vt, s, key, value, steps);
    }
  }
}
