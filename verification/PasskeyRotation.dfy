/** Changing an account's passkey: a new vault behind a marker, the registry write as its commit, and recovery. */
module PasskeyRotation {
  import opened Prelude
  import opened JsText
  import opened VaultStore

  // ---------- recovery as a function of the disk ----------

  predicate OthersName(cards: seq<Card>, u: UserHash, v: VaultId) {
    exists i :: 0 <= i < |cards| && cards[i].userHash != u && cards[i].vaultId == Some(v)
  }

  predicate Complete(m: RotationMarker) {
    m.userHash != [] && m.oldVaultId != [] && m.newVaultId != []
  }

  /** The vault a marker lets recovery clear: the one of its two that its account's card does not name. */
  function Loser(cards: seq<Card>, m: RotationMarker): Option<VaultId> {
    var named := VaultOf(cards, m.userHash);
    if named == Some(m.newVaultId) then Some(m.oldVaultId)
    else if named == Some(m.oldVaultId) then Some(m.newVaultId)
    else None
  }

  predicate Clearable(cards: seq<Card>, current: Option<VaultId>, m: RotationMarker) {
    && Complete(m) && Loser(cards, m).Some?
    && current != Loser(cards, m) && !OthersName(cards, m.userHash, Loser(cards, m).value)
  }

  /** The markers recovery acts on, by their key. */
  function ClearableKeys(d: Disk, current: Option<VaultId>): set<VaultId> {
    set k | k in d.rotations && Clearable(Cards(d), current, d.rotations[k])
  }

  function Losers(d: Disk, current: Option<VaultId>): set<VaultId> {
    set k | k in ClearableKeys(d, current) :: Loser(Cards(d), d.rotations[k]).value
  }

  /** Where recovery ends when no step fails: the losing vaults gone, with the markers that named them. */
  function Recovered(d: Disk, current: Option<VaultId>): Disk {
    var gone := Losers(d, current);
    d.(vaults := d.vaults - gone, locks := d.locks - gone, owners := d.owners - gone,
       rotations := d.rotations - ClearableKeys(d, current))
  }

  /** A rotation's two vaults are different; the new id is drawn fresh. */
  predicate RotationsSane(d: Disk) {
    forall k :: k in d.rotations ==> d.rotations[k].oldVaultId != d.rotations[k].newVaultId
  }

  /** What every moment of a recovery has done: part of what Recovered does. */
  predicate RecoveredPart(d: Disk, d': Disk, current: Option<VaultId>) {
    && d'.registry == d.registry && d'.marks == d.marks
    && Shrunk(d.vaults, d'.vaults, Losers(d, current)) && Shrunk(d.locks, d'.locks, Losers(d, current))
    && Shrunk(d.owners, d'.owners, Losers(d, current)) && Shrunk(d.rotations, d'.rotations, ClearableKeys(d, current))
    && (forall k :: k in d.rotations && k !in d'.rotations ==>
          Loser(Cards(d), d.rotations[k]).Some? && Gone(d', Loser(Cards(d), d.rotations[k]).value))
  }

  /** Recovery never touches a vault that any card of the registry names. */
  lemma {:induction false} LosersAreUnnamed(d: Disk, current: Option<VaultId>, c: Card)
    requires DistinctUsers(Cards(d)) && RotationsSane(d) && c in Cards(d) && c.vaultId.Some?
    ensures c.vaultId.value !in Losers(d, current)
  {
    var v := c.vaultId.value;
    CardOfIs(Cards(d), c);
    var i :| 0 <= i < |Cards(d)| && Cards(d)[i] == c;
    forall k | k in ClearableKeys(d, current)
      ensures Loser(Cards(d), d.rotations[k]).value != v
    {
      var u := d.rotations[k].userHash;
      assert c.userHash == u ==> VaultOf(Cards(d), u) == Some(v);
      assert c.userHash != u ==> OthersName(Cards(d), u, v);
    }
  }

  /** The vault is not open, and no other account's card names it. */
  ghost predicate MayGo(d: Disk, current: Option<VaultId>, u: UserHash, v: VaultId) {
    current != Some(v) && forall c :: c in Cards(d) && c.userHash != u ==> c.vaultId != Some(v)
  }

  /** Recovery acts on a marker exactly if none of its fields is empty, its account's card names one of its two vaults, and
      the other one may go. */
  lemma {:induction false} MarkerGoesIff(d: Disk, current: Option<VaultId>, k: VaultId)
    requires k in d.rotations
    ensures var m := d.rotations[k];
            k !in Recovered(d, current).rotations <==>
            && m.userHash != [] && m.oldVaultId != [] && m.newVaultId != []
            && ((VaultOf(Cards(d), m.userHash) == Some(m.newVaultId) && MayGo(d, current, m.userHash, m.oldVaultId))
                || (VaultOf(Cards(d), m.userHash) == Some(m.oldVaultId) && m.oldVaultId != m.newVaultId
                    && MayGo(d, current, m.userHash, m.newVaultId)))
  {
    var m := d.rotations[k];
    var loser := Loser(Cards(d), m);
    if loser.Some? {
      OthersNameIff(d, m.userHash, loser.value);
    }
  }

  lemma {:induction false} OthersNameIff(d: Disk, u: UserHash, v: VaultId)
    ensures OthersName(Cards(d), u, v) <==> exists c :: c in Cards(d) && c.userHash != u && c.vaultId == Some(v)
  {
    if c :| c in Cards(d) && c.userHash != u && c.vaultId == Some(v) {
      var i :| 0 <= i < |Cards(d)| && Cards(d)[i] == c;
    }
  }

  /** Wherever a recovery stopped, running it again to the end leaves what one unbroken run would have left. */
  lemma {:induction false} RecoveryResumes(d: Disk, d': Disk, current: Option<VaultId>)
    requires RecoveredPart(d, d', current)
    ensures Recovered(d', current) == Recovered(d, current)
  {
    var keys, keys' := ClearableKeys(d, current), ClearableKeys(d', current);
    var gone, gone' := Losers(d, current), Losers(d', current);
    assert keys' == keys * d'.rotations.Keys;
    assert d'.rotations - keys' == d.rotations - keys;
    forall v | v in gone && v !in gone'
      ensures Gone(d', v)
    {
      var k :| k in keys && Loser(Cards(d), d.rotations[k]).value == v;
      assert k !in keys';
    }
    forall v | v in gone'
      ensures v in gone
    {
      var k :| k in keys' && Loser(Cards(d'), d'.rotations[k]).value == v;
      assert k in keys;
    }
    SameRemains(d.vaults, d'.vaults, gone, gone');
    SameRemains(d.locks, d'.locks, gone, gone');
    SameRemains(d.owners, d'.owners, gone, gone');
  }

  lemma {:induction false} SameRemains<V>(m: map<VaultId, V>, m': map<VaultId, V>, gone: set<VaultId>, gone': set<VaultId>)
    requires Shrunk(m, m', gone) && gone' <= gone
    requires forall v :: v in gone && v !in gone' ==> v !in m'
    ensures m' - gone' == m - gone
  {
    forall v | v in m'.Keys - gone'
      ensures v in m.Keys - gone
    {
    }
    forall v | v in m.Keys - gone
      ensures v in m'.Keys - gone'
    {
    }
  }

  lemma {:induction false} RecoveryIdempotent(d: Disk, current: Option<VaultId>)
    ensures Recovered(Recovered(d, current), current) == Recovered(d, current)
  {
    var d' := Recovered(d, current);
    RecoveryReachesItsEnd(d, current);
    RecoveryResumes(d, d', current);
  }

  lemma {:induction false} RecoveryReachesItsEnd(d: Disk, current: Option<VaultId>)
    ensures RecoveredPart(d, Recovered(d, current), current)
  {
    var d', gone := Recovered(d, current), Losers(d, current);
    forall k | k in d.rotations && k !in d'.rotations
      ensures Loser(Cards(d), d.rotations[k]).Some? && Gone(d', Loser(Cards(d), d.rotations[k]).value)
    {
      assert k in ClearableKeys(d, current);
      assert Loser(Cards(d), d.rotations[k]).value in gone;
    }
  }

  /** Every account keeps its vault, its lock and its entries at every moment of a recovery. */
  lemma {:induction false} RecoveryKeepsSound(d: Disk, d': Disk, current: Option<VaultId>, accounts: map<UserHash, Vault>)
    requires Sound(d, accounts) && RotationsSane(d) && RecoveredPart(d, d', current)
    ensures Sound(d', accounts) && RotationsSane(d')
  {
    var gone := Losers(d, current);
    forall u | u in accounts
      ensures Stands(d', Cards(d'), u, accounts[u])
    {
      var c := CardOf(Cards(d), u).value;
      LosersAreUnnamed(d, current, c);
      var v := c.vaultId.value;
      assert v in d.vaults && v in d.locks && v !in gone;
    }
  }

  // ---------- #clearPasskeyRotations ----------

  /** One marker of the loop. It either stays, or goes after the vault it lets recovery clear. */
  method ClearOneRotation(em: Device, registry: seq<Card>, key: VaultId, ghost start: Disk)
    returns (o: Outcome, ghost faulted: bool)
    requires registry == Cards(start) && key in em.disk.rotations && RecoveredPart(start, em.disk, em.currentVault)
    modifies em`disk, em`currentVault, em`faults
    ensures em.currentVault == old(em.currentVault)
    ensures RecoveredPart(start, em.disk, em.currentVault)
    ensures em.disk.rotations == old(em.disk.rotations) || em.disk.rotations == old(em.disk.rotations) - {key}
    ensures o.Done? ==> key !in em.disk.rotations
    ensures o.Threw? && !faulted ==> key !in ClearableKeys(start, em.currentVault)
    ensures o.Threw? ==> key in em.disk.rotations
    ensures old(em.faults) <= em.faults && (em.faults == old(em.faults) ==> o.Done? || (o.Threw? && !faulted))
  {
    faulted := false;
    var marker := em.disk.rotations[key];
    if !Complete(marker) { return Threw, false; }
    var card := CardOf(registry, marker.userHash);
    var named := if card.Some? then card.value.vaultId else None;
    var discard :=
      if named == Some(marker.newVaultId) then Some(marker.oldVaultId)
      else if named == Some(marker.oldVaultId) then Some(marker.newVaultId)
      else None;
    if discard.None? || em.currentVault == discard || OthersName(registry, marker.userHash, discard.value) {
      return Threw, false;
    }
    faulted := true;
    ghost var before := em.disk;
    assert key in ClearableKeys(start, em.currentVault);
    o := em.ClearAccountVault(discard.value);
    ClearingIsRecovering(start, before, em.disk, em.currentVault, key);
    if !o.Done? { return; }
    DroppingIsRecovering(start, em.disk, em.currentVault, key);
    o := em.Write(em.disk.(rotations := em.disk.rotations - {key}));
  }

  /**
   * Under any faults, what recovery has changed at any moment is part of what Recovered changes; without faults it
   * is all of it. It counts the markers it leaves.
   */
  method ClearPasskeyRotations(em: Device) returns (o: Outcome, remaining: nat, ghost faultless: bool)
    modifies em`disk, em`currentVault, em`faults
    ensures em.currentVault == old(em.currentVault)
    ensures RecoveredPart(old(em.disk), em.disk, em.currentVault)
    ensures o.Done? ==> remaining == |em.disk.rotations|
    ensures faultless ==> o.Done? && em.disk == Recovered(old(em.disk), em.currentVault)
    ensures old(em.faults) <= em.faults && (em.faults == old(em.faults) ==> faultless)
  {
    remaining, faultless := 0, false;
    ghost var start := em.disk;
    o := em.Step();
    if !o.Done? { return; }
    var keys := em.disk.rotations.Keys;
    o := em.Step();
    if !o.Done? { return; }
    var registry := Cards(em.disk);
    ghost var clean := true;
    ghost var kept: set<VaultId> := {};
    while keys != {}
      invariant em.currentVault == old(em.currentVault) && registry == Cards(start)
      invariant RecoveredPart(start, em.disk, em.currentVault) == true
      invariant Counted(em.disk.rotations.Keys, kept, keys, remaining) == true
      invariant clean ==> kept !! ClearableKeys(start, em.currentVault)
      invariant old(em.faults) <= em.faults && (em.faults == old(em.faults) ==> clean)
      decreases keys
    {
      var key :| key in keys;
      o := em.Step();
      if !o.Done? { return; }
      ghost var faulted;
      CountOne(em.disk.rotations.Keys, kept, keys, remaining, key);
      keys := keys - {key};
      o, faulted := ClearOneRotation(em, registry, key, start);
      if o.Crashed? { return; }
      if o.Threw? {
        remaining := remaining + 1;
        clean := clean && !faulted;
        kept := kept + {key};
      }
    }
    o := Done;
    assert em.disk.rotations.Keys == kept;
    faultless := clean;
    if clean {
      FinishedIsRecovered(start, em.disk, em.currentVault);
    }
  }

  /** The markers are those kept and those still to come, and the kept ones are counted. */
  predicate Counted(markers: set<VaultId>, kept: set<VaultId>, keys: set<VaultId>, remaining: nat) {
    kept !! keys && markers == kept + keys && remaining == |kept|
  }

  lemma {:induction false} CountOne(markers: set<VaultId>, kept: set<VaultId>, keys: set<VaultId>, remaining: nat, key: VaultId)
    requires Counted(markers, kept, keys, remaining) && key in keys
    ensures key in markers
    ensures Counted(markers, kept + {key}, keys - {key}, remaining + 1)
    ensures Counted(markers - {key}, kept, keys - {key}, remaining)
  {
  }

  lemma {:induction false} ClearingIsRecovering(d: Disk, before: Disk, after: Disk, current: Option<VaultId>, key: VaultId)
    requires RecoveredPart(d, before, current) && key in ClearableKeys(d, current)
    requires ClearedPart(before, after, {Loser(Cards(d), d.rotations[key]).value})
    ensures RecoveredPart(d, after, current)
  {
    var v := Loser(Cards(d), d.rotations[key]).value;
    assert v in Losers(d, current);
    ShrunkFurther(d.vaults, before.vaults, after.vaults, Losers(d, current), v);
    ShrunkFurther(d.locks, before.locks, after.locks, Losers(d, current), v);
    ShrunkFurther(d.owners, before.owners, after.owners, Losers(d, current), v);
  }

  lemma {:induction false} ShrunkFurther<V>(m: map<VaultId, V>, m': map<VaultId, V>, m'': map<VaultId, V>, vs: set<VaultId>, v: VaultId)
    requires Shrunk(m, m', vs) && Shrunk(m', m'', {v}) && v in vs
    ensures Shrunk(m, m'', vs)
  {
  }

  lemma {:induction false} DroppingIsRecovering(d: Disk, before: Disk, current: Option<VaultId>, key: VaultId)
    requires RecoveredPart(d, before, current) && key in ClearableKeys(d, current)
    requires Gone(before, Loser(Cards(d), d.rotations[key]).value)
    ensures RecoveredPart(d, before.(rotations := before.rotations - {key}), current)
  {
  }

  lemma {:induction false} FinishedIsRecovered(d: Disk, d': Disk, current: Option<VaultId>)
    requires RecoveredPart(d, d', current) && d'.rotations.Keys !! ClearableKeys(d, current)
    ensures d' == Recovered(d, current)
  {
    RecoveryResumes(d, d', current);
    assert ClearableKeys(d', current) == {};
    assert Losers(d', current) == {};
  }

  // ---------- #rotateVaultPasskey ----------

  /** d' is d with anything at all kept for the vault v. */
  predicate SameBut(d: Disk, d': Disk, v: VaultId) {
    && d'.registry == d.registry && d'.rotations == d.rotations && d'.marks == d.marks
    && d'.vaults - {v} == d.vaults - {v} && d'.locks - {v} == d.locks - {v} && d'.owners - {v} == d.owners - {v}
  }

  /** Up to the registry write: as before, or marked and with part of a new vault beside. */
  predicate BeforeCommit(base: Disk, d: Disk, m: RotationMarker) {
    || d == base
    || (SameBut(base, d.(rotations := base.rotations), m.newVaultId) && d.rotations == base.rotations[m.newVaultId := m])
  }

  /** From the registry write on: the new vault is complete and named, and the marker outlives the old vault. */
  predicate AfterCommit(base: Disk, d: Disk, m: RotationMarker, cards: seq<Card>) {
    && d.registry == Some(cards) && d.marks == base.marks
    && m.newVaultId in d.vaults && m.oldVaultId in base.vaults && d.vaults[m.newVaultId] == base.vaults[m.oldVaultId]
    && m.newVaultId in d.locks
    && Shrunk(base.vaults, d.vaults - {m.newVaultId}, {m.oldVaultId}) && Shrunk(base.locks, d.locks - {m.newVaultId}, {m.oldVaultId})
    && Shrunk(base.owners, d.owners - {m.newVaultId}, {m.oldVaultId})
    && (d.rotations == base.rotations[m.newVaultId := m] || (d.rotations == base.rotations && Gone(d, m.oldVaultId)))
  }

  lemma {:induction false} BeforeCommitSound(base: Disk, d: Disk, m: RotationMarker, accounts: map<UserHash, Vault>)
    requires Sound(base, accounts) && RotationsSane(base) && Fresh(base, m.newVaultId) && BeforeCommit(base, d, m)
    requires m.oldVaultId != m.newVaultId
    ensures Sound(d, accounts) && RotationsSane(d)
  {
    forall u | u in accounts
      ensures Stands(d, Cards(d), u, accounts[u])
    {
      var c := CardOf(Cards(base), u).value;
      var v := c.vaultId.value;
      assert v in base.vaults - {m.newVaultId} && v in base.locks - {m.newVaultId};
      assert d != base ==> v in d.vaults - {m.newVaultId} && v in d.locks - {m.newVaultId};
      assert d != base ==> (d.vaults - {m.newVaultId})[v] == (base.vaults - {m.newVaultId})[v];
    }
  }

  /** The cards a rotation commits: those it loaded, with its account's card naming the new vault. */
  function CommitCards(base: Disk, unread: set<Card>, u: UserHash, newId: VaultId): seq<Card> {
    var loaded := Loaded(base.marks, Cards(base), unread);
    match CardOf(loaded, u)
    case None => loaded
    case Some(card) => Replaced(loaded, card.(vaultId := Some(newId)))
  }

  /** The commit keeps every card in its place as it was loaded, but for the vault that the account's card names. */
  lemma {:induction false} CommitChangesOneVault(base: Disk, unread: set<Card>, u: UserHash, newId: VaultId, i: nat)
    requires i < |Loaded(base.marks, Cards(base), unread)| && DistinctUsers(Loaded(base.marks, Cards(base), unread))
    ensures var was, now := Loaded(base.marks, Cards(base), unread), CommitCards(base, unread, u, newId);
            && |now| == |was| && now[i].userHash == was[i].userHash && now[i].name == was[i].name
            && now[i].vaultId == if was[i].userHash == u then Some(newId) else was[i].vaultId
  {
    var loaded := Loaded(base.marks, Cards(base), unread);
    if loaded[i].userHash == u {
      CardOfIs(loaded, loaded[i]);
    }
  }

  /** A rotation has loaded these cards, found its own among them, and drawn a fresh id. */
  ghost predicate Prepared(base: Disk, m: RotationMarker, accounts: map<UserHash, Vault>) {
    && Sound(base, accounts) && RotationsSane(base) && Fresh(base, m.newVaultId) && Complete(m)
    && m.oldVaultId != m.newVaultId && m.userHash in accounts
    && VaultOf(Cards(base), m.userHash) == Some(m.oldVaultId)
  }

  /** Who is named by the committed cards. */
  lemma {:induction false} CommitNames(base: Disk, unread: set<Card>, m: RotationMarker, accounts: map<UserHash, Vault>)
    requires Prepared(base, m, accounts)
    ensures DistinctUsers(CommitCards(base, unread, m.userHash, m.newVaultId))
    ensures VaultOf(CommitCards(base, unread, m.userHash, m.newVaultId), m.userHash) == Some(m.newVaultId)
    ensures forall u :: u in accounts && u != m.userHash ==>
              CardOf(CommitCards(base, unread, m.userHash, m.newVaultId), u) == CardOf(Cards(base), u)
    ensures forall c, u :: c in CommitCards(base, unread, m.userHash, m.newVaultId) && u in accounts && c.userHash != u ==>
              c.vaultId != VaultOf(Cards(base), u) || c.userHash == m.userHash
    ensures forall c :: c in CommitCards(base, unread, m.userHash, m.newVaultId) && c.userHash != m.userHash ==>
              c.vaultId != Some(m.newVaultId) && c.vaultId != Some(m.oldVaultId)
  {
    var loaded := Loaded(base.marks, Cards(base), unread);
    var cards := CommitCards(base, unread, m.userHash, m.newVaultId);
    LoadKeepsAccount(base, unread, accounts, m.userHash);
    ReplacedKeeps(loaded, CardOf(loaded, m.userHash).value.(vaultId := Some(m.newVaultId)));
    forall u | u in accounts && u != m.userHash
      ensures CardOf(cards, u) == CardOf(Cards(base), u)
    {
      LoadKeepsAccount(base, unread, accounts, u);
      CardOfIs(cards, CardOf(loaded, u).value);
    }
    forall c, u | c in cards && c.userHash != m.userHash && u in accounts && c.userHash != u
      ensures c.vaultId != VaultOf(Cards(base), u)
    {
      LoadKeepsApart(base, unread, accounts, u, c);
    }
    forall c | c in cards && c.userHash != m.userHash
      ensures c.vaultId != Some(m.newVaultId)
    {
      LoadedNeverFresh(base, unread, m.newVaultId, c);
    }
  }

  lemma {:induction false} AfterCommitSound(base: Disk, d: Disk, unread: set<Card>, m: RotationMarker, accounts: map<UserHash, Vault>)
    requires Prepared(base, m, accounts)
    requires AfterCommit(base, d, m, CommitCards(base, unread, m.userHash, m.newVaultId))
    ensures Sound(d, accounts) && RotationsSane(d)
  {
    var cards := CommitCards(base, unread, m.userHash, m.newVaultId);
    CommitNames(base, unread, m, accounts);
    forall u | u in accounts
      ensures Stands(d, cards, u, accounts[u]) && ReplacedApart(d.marks, cards, u)
    {
      if u != m.userHash {
        var v := VaultOf(Cards(base), u).value;
        assert v in base.vaults && v in base.locks && v != m.newVaultId && v != m.oldVaultId by {
          StandsApart(base, accounts, u, m.userHash);
          CardIsNotFresh(base, u, m.newVaultId);
        }
        assert v in d.vaults - {m.newVaultId} && v in d.locks - {m.newVaultId};
        assert (d.vaults - {m.newVaultId})[v] == base.vaults[v];
      }
    }
  }

  lemma {:induction false} StandsApart(d: Disk, accounts: map<UserHash, Vault>, u: UserHash, w: UserHash)
    requires Sound(d, accounts) && u in accounts && w in accounts && u != w
    ensures VaultOf(Cards(d), u) != VaultOf(Cards(d), w)
  {
    var c := CardOf(Cards(d), u).value;
    var i :| 0 <= i < |Cards(d)| && Cards(d)[i] == c;
  }

  lemma {:induction false} CardIsNotFresh(d: Disk, u: UserHash, v: VaultId)
    requires Fresh(d, v)
    ensures VaultOf(Cards(d), u) != Some(v)
  {
  }

  // ---------- where an interrupted rotation ends ----------

  ghost predicate Rotating(base: Disk, d: Disk, unread: set<Card>, m: RotationMarker) {
    BeforeCommit(base, d, m) || AfterCommit(base, d, m, CommitCards(base, unread, m.userHash, m.newVaultId))
  }

  /** Whatever step a rotation stopped at, every account stands, and the rotating one on one of the two vaults. */
  lemma {:induction false} RotationIsSafe(base: Disk, d: Disk, unread: set<Card>, m: RotationMarker, accounts: map<UserHash, Vault>)
    requires Prepared(base, m, accounts) && Rotating(base, d, unread, m)
    ensures Sound(d, accounts) && RotationsSane(d)
    ensures VaultOf(Cards(d), m.userHash) in {Some(m.oldVaultId), Some(m.newVaultId)}
  {
    if BeforeCommit(base, d, m) {
      BeforeCommitSound(base, d, m, accounts);
    } else {
      AfterCommitSound(base, d, unread, m, accounts);
      CommitNames(base, unread, m, accounts);
    }
  }

  lemma {:induction false} OthersNameNeither(base: Disk, d: Disk, unread: set<Card>, m: RotationMarker, accounts: map<UserHash, Vault>)
    requires Prepared(base, m, accounts) && Rotating(base, d, unread, m)
    ensures !OthersName(Cards(d), m.userHash, m.oldVaultId) && !OthersName(Cards(d), m.userHash, m.newVaultId)
  {
    if !BeforeCommit(base, d, m) {
      CommitNames(base, unread, m, accounts);
    }
  }

  /** Recovery then keeps exactly the vault the registry names, and no marker of the rotation. */
  lemma {:induction false} RecoveryEndsRotation(base: Disk, d: Disk, unread: set<Card>, m: RotationMarker,
                                               current: Option<VaultId>, accounts: map<UserHash, Vault>)
    requires Prepared(base, m, accounts) && Rotating(base, d, unread, m)
    requires current == None || current == VaultOf(Cards(d), m.userHash)
    ensures var r := Recovered(d, current);
            && Sound(r, accounts) && m.newVaultId !in r.rotations
            && VaultOf(Cards(r), m.userHash) == VaultOf(Cards(d), m.userHash)
            && (VaultOf(Cards(d), m.userHash) == Some(m.oldVaultId) ==> Gone(r, m.newVaultId))
            && (VaultOf(Cards(d), m.userHash) == Some(m.newVaultId) ==> Gone(r, m.oldVaultId))
  {
    RotationIsSafe(base, d, unread, m, accounts);
    RecoveredIsSound(d, current, accounts);
    OneVaultStays(base, d, unread, m, current, accounts);
  }

  lemma {:induction false} RecoveredIsSound(d: Disk, current: Option<VaultId>, accounts: map<UserHash, Vault>)
    requires Sound(d, accounts) && RotationsSane(d)
    ensures Sound(Recovered(d, current), accounts)
  {
    RecoveryReachesItsEnd(d, current);
    RecoveryKeepsSound(d, Recovered(d, current), current, accounts);
  }

  lemma {:induction false} OneVaultStays(base: Disk, d: Disk, unread: set<Card>, m: RotationMarker,
                                        current: Option<VaultId>, accounts: map<UserHash, Vault>)
    requires Prepared(base, m, accounts) && Rotating(base, d, unread, m)
    requires current == None || current == VaultOf(Cards(d), m.userHash)
    requires VaultOf(Cards(d), m.userHash) == Some(m.oldVaultId) || VaultOf(Cards(d), m.userHash) == Some(m.newVaultId)
    ensures var r := Recovered(d, current);
            && m.newVaultId !in r.rotations
            && (VaultOf(Cards(d), m.userHash) == Some(m.oldVaultId) ==> Gone(r, m.newVaultId))
            && (VaultOf(Cards(d), m.userHash) == Some(m.newVaultId) ==> Gone(r, m.oldVaultId))
  {
    if m.newVaultId in d.rotations {
      assert d.rotations[m.newVaultId] == m;
      OthersNameNeither(base, d, unread, m, accounts);
      OwnMarkerIsCleared(d, m, current);
    } else {
      UnmarkedIsClean(base, d, unread, m, accounts);
      GoneStaysGone(d, current, m.newVaultId);
      GoneStaysGone(d, current, m.oldVaultId);
    }
  }

  lemma {:induction false} GoneStaysGone(d: Disk, current: Option<VaultId>, v: VaultId)
    ensures Gone(d, v) ==> Gone(Recovered(d, current), v)
  {
  }

  /** Without its marker a rotation has left nothing of the vault that lost. */
  lemma {:induction false} UnmarkedIsClean(base: Disk, d: Disk, unread: set<Card>, m: RotationMarker, accounts: map<UserHash, Vault>)
    requires Prepared(base, m, accounts) && Rotating(base, d, unread, m) && m.newVaultId !in d.rotations
    ensures VaultOf(Cards(d), m.userHash) == Some(m.oldVaultId) ==> Gone(d, m.newVaultId)
    ensures VaultOf(Cards(d), m.userHash) == Some(m.newVaultId) ==> Gone(d, m.oldVaultId)
  {
    if BeforeCommit(base, d, m) {
      assert d == base;
    } else {
      CommitNames(base, unread, m, accounts);
    }
  }

  /** A marker whose account names one of its vaults, and whose vaults no other account names, is acted on. */
  lemma {:induction false} OwnMarkerIsCleared(d: Disk, m: RotationMarker, current: Option<VaultId>)
    requires m.newVaultId in d.rotations && d.rotations[m.newVaultId] == m && Complete(m) && m.oldVaultId != m.newVaultId
    requires current == None || current == VaultOf(Cards(d), m.userHash)
    requires VaultOf(Cards(d), m.userHash) == Some(m.oldVaultId) || VaultOf(Cards(d), m.userHash) == Some(m.newVaultId)
    requires !OthersName(Cards(d), m.userHash, m.oldVaultId) && !OthersName(Cards(d), m.userHash, m.newVaultId)
    ensures var r := Recovered(d, current);
            && m.newVaultId !in r.rotations
            && (VaultOf(Cards(d), m.userHash) == Some(m.oldVaultId) ==> Gone(r, m.newVaultId))
            && (VaultOf(Cards(d), m.userHash) == Some(m.newVaultId) ==> Gone(r, m.oldVaultId))
  {
    assert m.newVaultId in ClearableKeys(d, current);
    assert Loser(Cards(d), d.rotations[m.newVaultId]).value in Losers(d, current);
  }

  ghost predicate HoldsMarker(d: Disk, u: UserHash) {
    exists k :: k in d.rotations && d.rotations[k].userHash == u
  }

  /**
   * A marker that an earlier rotation of the account left behind names two vaults the account no longer has once a
   * newer rotation commits: recovery can then never act on it, and what it marks stays. So no marker of the account
   * is left in the end exactly when the recovery that opened the rotation had left none.
   */
  lemma {:induction false} OlderMarkersAreStranded(base: Disk, d: Disk, unread: set<Card>, m: RotationMarker, accounts: map<UserHash, Vault>)
    requires Prepared(base, m, accounts)
    requires AfterCommit(base, d, m, CommitCards(base, unread, m.userHash, m.newVaultId))
    ensures HoldsMarker(Recovered(d, Some(m.newVaultId)), m.userHash) <==> HoldsMarker(base, m.userHash)
  {
    var current := Some(m.newVaultId);
    var r := Recovered(d, current);
    CommitNames(base, unread, m, accounts);
    RecoveryEndsRotation(base, d, unread, m, current, accounts);
    forall k | k in base.rotations && base.rotations[k].userHash == m.userHash
      ensures k in r.rotations && r.rotations[k].userHash == m.userHash
    {
      assert d.rotations[k] == base.rotations[k];
      assert Loser(Cards(d), d.rotations[k]) == None;
    }
    if k :| k in r.rotations && r.rotations[k].userHash == m.userHash {
      assert k in base.rotations && base.rotations[k] == r.rotations[k];
    }
  }

  /** Once the rotation commits, some marker of the account stays for good. */
  ghost predicate Strands(base: Disk, d: Disk, unread: set<Card>, m: RotationMarker) {
    AfterCommit(base, d, m, CommitCards(base, unread, m.userHash, m.newVaultId)) ==>
      HoldsMarker(Recovered(d, Some(m.newVaultId)), m.userHash)
  }

  ghost predicate AlwaysStrands(base: Disk, m: RotationMarker) {
    forall d, unread :: Strands(base, d, unread, m)
  }

  /**
   * Such markers do arise. A rotation commits and its clearing fails: its marker stays. The next rotation's opening
   * recovery goes on when clearing fails again, so it may start from there; once it commits the marker is stranded.
   */
  lemma {:induction false} FailedClearingStrands(base: Disk, unread: set<Card>, m: RotationMarker, next: RotationMarker,
                                                credential: JsString, accounts: map<UserHash, Vault>)
    returns (d: Disk)
    requires Prepared(base, m, accounts) && Fresh(base, next.newVaultId) && Complete(next) && next.newVaultId != m.newVaultId
    requires next.userHash == m.userHash && next.oldVaultId == m.newVaultId
    ensures AfterCommit(base, d, m, CommitCards(base, unread, m.userHash, m.newVaultId))
    ensures m.newVaultId in d.rotations && d.rotations[m.newVaultId] == m
    ensures RecoveredPart(d, d, Some(m.newVaultId)) && Prepared(d, next, accounts) && AlwaysStrands(d, next)
  {
    d := Uncleared(base, unread, m, credential);
    UnclearedIsCommitted(base, unread, m, credential);
    NothingRecovered(d, Some(m.newVaultId));
    UnclearedIsPrepared(base, unread, m, next, credential, accounts);
    assert m.newVaultId in d.rotations && d.rotations[m.newVaultId].userHash == next.userHash;
    HeldStrandsAlways(d, next, accounts);
  }

  lemma {:induction false} NothingRecovered(d: Disk, current: Option<VaultId>)
    ensures RecoveredPart(d, d, current)
  {
  }

  lemma {:induction false} UnclearedIsPrepared(base: Disk, unread: set<Card>, m: RotationMarker, next: RotationMarker,
                                              credential: JsString, accounts: map<UserHash, Vault>)
    requires Prepared(base, m, accounts) && Fresh(base, next.newVaultId) && Complete(next) && next.newVaultId != m.newVaultId
    requires next.userHash == m.userHash && next.oldVaultId == m.newVaultId
    ensures Prepared(Uncleared(base, unread, m, credential), next, accounts)
  {
    UnclearedIsCommitted(base, unread, m, credential);
    AfterCommitSound(base, Uncleared(base, unread, m, credential), unread, m, accounts);
    CommitNames(base, unread, m, accounts);
    UnclearedStaysFresh(base, unread, m, credential, next.newVaultId);
  }

  lemma {:induction false} HeldStrandsAlways(base: Disk, m: RotationMarker, accounts: map<UserHash, Vault>)
    requires Prepared(base, m, accounts) && HoldsMarker(base, m.userHash)
    ensures AlwaysStrands(base, m)
  {
    forall d, unread
      ensures Strands(base, d, unread, m)
    {
      HeldIsStranded(base, d, unread, m, accounts);
    }
  }

  lemma {:induction false} HeldIsStranded(base: Disk, d: Disk, unread: set<Card>, m: RotationMarker, accounts: map<UserHash, Vault>)
    requires Prepared(base, m, accounts) && HoldsMarker(base, m.userHash)
    ensures Strands(base, d, unread, m)
  {
    if AfterCommit(base, d, m, CommitCards(base, unread, m.userHash, m.newVaultId)) {
      OlderMarkersAreStranded(base, d, unread, m, accounts);
    }
  }

  /** A rotation that committed and cleared nothing. */
  function Uncleared(base: Disk, unread: set<Card>, m: RotationMarker, credential: JsString): Disk
    requires m.oldVaultId in base.vaults
  {
    base.(registry := Some(CommitCards(base, unread, m.userHash, m.newVaultId)),
          vaults := base.vaults[m.newVaultId := base.vaults[m.oldVaultId]],
          locks := base.locks[m.newVaultId := credential], rotations := base.rotations[m.newVaultId := m])
  }

  lemma {:induction false} UnclearedIsCommitted(base: Disk, unread: set<Card>, m: RotationMarker, credential: JsString)
    requires Fresh(base, m.newVaultId) && m.oldVaultId in base.vaults
    ensures AfterCommit(base, Uncleared(base, unread, m, credential), m, CommitCards(base, unread, m.userHash, m.newVaultId))
  {
  }

  lemma {:induction false} UnclearedStaysFresh(base: Disk, unread: set<Card>, m: RotationMarker, credential: JsString, v: VaultId)
    requires Fresh(base, v) && m.oldVaultId in base.vaults && v != m.newVaultId
    ensures Fresh(Uncleared(base, unread, m, credential), v)
  {
    forall c | c in CommitCards(base, unread, m.userHash, m.newVaultId)
      ensures c.vaultId != Some(v)
    {
      var loaded := Loaded(base.marks, Cards(base), unread);
      if c in loaded {
        LoadedNeverFresh(base, unread, v, c);
      }
    }
  }

  // ---------- the protocol ----------

  /** Copying the entries and reading them back: a copy that was stored wrongly is refused, and no other. */
  method CopyEntries(em: Device, oldId: VaultId, newId: VaultId) returns (o: Outcome)
    requires oldId != newId && oldId in em.disk.vaults && newId in em.disk.vaults && em.disk.vaults[newId] == map[]
    modifies em`disk, em`faults
    ensures SameBut(old(em.disk), em.disk, newId) && em.disk.locks == old(em.disk.locks)
    ensures o.Done? ==> newId in em.disk.vaults && em.disk.vaults[newId] == old(em.disk.vaults[oldId])
    ensures old(em.faults) <= em.faults && (em.faults == old(em.faults) ==> o.Done?)
  {
    o := em.Step();
    if !o.Done? { return; }
    var values := em.disk.vaults[oldId];
    var names := values.Keys;
    while names != {}
      invariant SameBut(old(em.disk), em.disk, newId) && em.disk.locks == old(em.disk.locks)
      invariant newId in em.disk.vaults && em.disk.vaults[newId].Keys == values.Keys - names && names <= values.Keys
      invariant old(em.faults) <= em.faults
      invariant em.faults == old(em.faults) ==> forall name :: name in values && name !in names ==> em.disk.vaults[newId][name] == values[name]
    {
      var name :| name in names;
      names := names - {name};
      // What the vault's own encryption and storage make of the value is what the reading back checks.
      var stored := em.Stored(values[name]);
      o := em.Write(em.disk.(vaults := em.disk.vaults[newId := em.disk.vaults[newId][name := stored]]));
      if !o.Done? { return; }
    }
    ghost var copied := em.disk;
    names := values.Keys;
    while names != {}
      invariant em.disk == copied && names <= values.Keys
      invariant old(em.faults) <= em.faults
      invariant em.faults == old(em.faults) ==> forall name :: name in values ==> copied.vaults[newId][name] == values[name]
      invariant forall name :: name in values && name !in names ==> em.disk.vaults[newId][name] == values[name]
    {
      var name :| name in names;
      names := names - {name};
      o := em.Step();
      if !o.Done? { return; }
      if em.disk.vaults[newId][name] != values[name] { return Threw; }
    }
    o := Done;
  }

  /** current(): an ended session closes its vault. */
  method SessionGoesOn(em: Device) returns (o: Outcome)
    modifies em`currentVault, em`faults
    ensures em.currentVault == if o.Threw? then None else old(em.currentVault)
    ensures old(em.faults) <= em.faults && (em.faults == old(em.faults) ==> o.Done?)
  {
    o := em.Step();
    if o.Threw? { em.currentVault := None; }
  }

  /** From the passkey ceremony to the owner record; the session may end meanwhile. When no step fails it succeeds exactly
      if the new passkey is another credential than the old one. */
  method FillNewVault(em: Device, m: RotationMarker, credential: JsString) returns (o: Outcome)
    requires m.oldVaultId != m.newVaultId && m.oldVaultId in em.disk.vaults && m.oldVaultId in em.disk.locks
    requires em.currentVault == Some(m.oldVaultId)
    modifies em`disk, em`currentVault, em`faults
    ensures SameBut(old(em.disk), em.disk, m.newVaultId)
    ensures em.currentVault in {None, Some(m.oldVaultId)}
    ensures o.Done? ==> em.currentVault == Some(m.oldVaultId)
    ensures o.Done? ==> m.newVaultId in em.disk.vaults && em.disk.vaults[m.newVaultId] == old(em.disk.vaults[m.oldVaultId])
    ensures o.Done? ==> Owned(em.disk, m.newVaultId, m.userHash, credential) && credential != old(em.disk.locks[m.oldVaultId])
    ensures old(em.faults) <= em.faults
    ensures em.faults == old(em.faults) ==> o == if credential != old(em.disk.locks[m.oldVaultId]) then Done else Threw
  {
    var v := m.newVaultId;
    o := em.Step();
    if !o.Done? { return; }
    o := em.Write(em.disk.(vaults := em.disk.vaults[v := map[]]));
    if !o.Done? { return; }
    o := em.Write(em.disk.(locks := em.disk.locks[v := credential]));
    if !o.Done? { return; }
    o := SessionGoesOn(em);
    if !o.Done? { return; }
    assert em.disk.locks - {v} == old(em.disk.locks) - {v} && m.oldVaultId in em.disk.locks - {v};
    if credential == em.disk.locks[m.oldVaultId] { return Threw; }
    o := CopyEntries(em, m.oldVaultId, v);
    if !o.Done? { return; }
    o := SessionGoesOn(em);
    if !o.Done? { return; }
    o := em.Write(em.disk.(owners := em.disk.owners[v := m.userHash]));
  }

  /** The account's card and its lock, looked up afresh: refused exactly if the card is gone or names another vault. */
  method OwnCard(em: Device, u: UserHash, oldId: VaultId, ghost accounts: map<UserHash, Vault>)
    returns (o: Outcome, card: Card, ghost unread: set<Card>)
    requires Sound(em.disk, accounts) && u in accounts
    modifies em`localUserCards, em`faults
    ensures o.Done? ==> em.localUserCards == Loaded(em.disk.marks, Cards(em.disk), unread) && CardOf(em.localUserCards, u) == Some(card)
    ensures o.Done? ==> VaultOf(Cards(em.disk), u) == Some(oldId)
    ensures old(em.faults) <= em.faults
    ensures em.faults == old(em.faults) ==> o == if VaultOf(Cards(em.disk), u) == Some(oldId) then Done else Threw
  {
    card := Card(u, [], None);
    ghost var registryRead;
    o, registryRead, unread := em.LoadLocalUserCards();
    if !o.Done? { return; }
    if registryRead {
      LoadKeepsAccount(em.disk, unread, accounts, u);
    }
    var found := CardOf(em.localUserCards, u);
    if found.None? || found.value.vaultId != Some(oldId) { return Threw, card, unread; }
    card := found.value;
    o := em.Step();
    if !o.Done? { return; }
    if oldId !in em.disk.locks { o := Threw; }
  }

  /** #rotateVaultPasskey for the account u, signed in on the vault oldId. */
  method RotateVaultPasskey(em: Device, u: UserHash, oldId: VaultId, newId: VaultId, credential: JsString,
                            ghost accounts: map<UserHash, Vault>)
    returns (o: Outcome, ghost recovered: Disk, ghost unread: set<Card>, ghost cleared: bool, ghost started: bool)
    requires Sound(em.disk, accounts) && RotationsSane(em.disk) && u in accounts && em.currentVault == Some(oldId)
    requires Fresh(em.disk, newId) && newId != oldId && u != [] && oldId != [] && newId != []
    modifies em
    ensures RecoveredPart(old(em.disk), recovered, Some(oldId))
    ensures VaultOf(Cards(recovered), u) == Some(oldId) ==> Prepared(recovered, RotationMarker(u, oldId, newId), accounts)
    ensures VaultOf(Cards(recovered), u) == Some(oldId) ==>
              Rotating(recovered, em.disk, unread, RotationMarker(u, oldId, newId))
    ensures VaultOf(Cards(recovered), u) != Some(oldId) ==> em.disk == recovered
    ensures Sound(em.disk, accounts) && RotationsSane(em.disk)
    ensures o.Done? ==> AfterCommit(recovered, em.disk, RotationMarker(u, oldId, newId), CommitCards(recovered, unread, u, newId))
    ensures o.Done? ==> em.currentVault == Some(newId) && em.disk.registry == Some(em.localUserCards)
    ensures o.Threw? ==> em.disk.registry == old(em.disk.registry)
    // unless a clearing step failed, the vault that lost is gone, and no marker is left of this rotation
    ensures cleared && o.Done? ==> Gone(em.disk, oldId) && em.disk.rotations == recovered.rotations
    ensures cleared && o.Threw? ==> em.disk == recovered
    ensures o.Done? ==> Owned(em.disk, newId, u, credential) && credential != recovered.locks[oldId]
    // it goes on to its marker only if the account is still on the vault that is open; when no step fails, it does so
    // exactly then, and then succeeds exactly for another credential than the old one
    ensures started ==> VaultOf(Cards(recovered), u) == Some(oldId) && oldId in recovered.locks
    ensures !started ==> em.disk == recovered && !o.Done?
    ensures em.faults == old(em.faults) ==> cleared && started == (VaultOf(Cards(recovered), u) == Some(oldId))
    ensures em.faults == old(em.faults) ==> o == if started && credential != recovered.locks[oldId] then Done else Threw
  {
    cleared, started := true, false;
    var m := RotationMarker(u, oldId, newId);
    ghost var start := em.disk;
    unread := {};
    var left;
    ghost var faultless;
    o, left, faultless := ClearPasskeyRotations(em);
    recovered := em.disk;
    RecoveryKeepsSound(start, recovered, em.currentVault, accounts);
    StillFresh(start, recovered, em.currentVault, newId);
    if !o.Done? { return; }
    var card;
    o, card, unread := OwnCard(em, u, oldId, accounts);
    if !o.Done? { return; }
    started := true;
    o, cleared := CommitRotation(em, m, card, credential, recovered, unread);
    RotationIsSafe(recovered, em.disk, unread, m, accounts);
  }

  lemma {:induction false} StillFresh(d: Disk, d': Disk, current: Option<VaultId>, v: VaultId)
    requires RecoveredPart(d, d', current) && Fresh(d, v)
    ensures Fresh(d', v)
  {
  }

  /** The marked part of a rotation: from the marker to the clearing of the vault that lost. */
  method CommitRotation(em: Device, m: RotationMarker, card: Card, credential: JsString, ghost base: Disk, ghost unread: set<Card>)
    returns (o: Outcome, ghost cleared: bool)
    requires em.disk == base && em.currentVault == Some(m.oldVaultId) && Fresh(base, m.newVaultId)
    requires m.oldVaultId != m.newVaultId && m.oldVaultId in base.vaults && m.oldVaultId in base.locks
    requires em.localUserCards == Loaded(base.marks, Cards(base), unread) && CardOf(em.localUserCards, m.userHash) == Some(card)
    modifies em
    ensures Rotating(base, em.disk, unread, m)
    ensures o.Done? ==> AfterCommit(base, em.disk, m, CommitCards(base, unread, m.userHash, m.newVaultId))
    ensures o.Done? ==> em.currentVault == Some(m.newVaultId) && em.disk.registry == Some(em.localUserCards)
    ensures o.Threw? ==> em.disk.registry == base.registry
    ensures cleared && o.Done? ==> Gone(em.disk, m.oldVaultId) && em.disk.rotations == base.rotations
    ensures cleared && o.Threw? ==> em.disk == base
    ensures o.Done? ==> Owned(em.disk, m.newVaultId, m.userHash, credential) && credential != base.locks[m.oldVaultId]
    ensures old(em.faults) <= em.faults
    ensures em.faults == old(em.faults) ==> cleared && o == if credential != base.locks[m.oldVaultId] then Done else Threw
  {
    cleared := true;
    var v := m.newVaultId;
    o := em.Write(em.disk.(rotations := em.disk.rotations[v := m]));
    if !o.Done? { return; }
    o := FillNewVault(em, m, credential);
    if o.Crashed? { return; }
    var cards := Replaced(em.localUserCards, card.(vaultId := Some(v)));
    if o.Done? {
      FilledIsCommitted(base, em.disk, m, cards);
      o := em.Write(em.disk.(registry := Some(cards)));
      if o.Crashed? { return; }
    }
    if o.Threw? {
      var cleanup := AbandonNewVault(em, m, base);
      return if cleanup.Crashed? then Crashed else Threw, cleanup.Done?;
    }
    em.localUserCards, em.currentVault := cards, Some(v);
    o := ClearOldVault(em, m, base, cards);
    if o.Threw? { o, cleared := Done, false; }
  }

  lemma {:induction false} FilledIsCommitted(base: Disk, d: Disk, m: RotationMarker, cards: seq<Card>)
    requires Fresh(base, m.newVaultId) && m.oldVaultId != m.newVaultId && m.oldVaultId in base.vaults
    requires SameBut(base, d.(rotations := base.rotations), m.newVaultId) && d.rotations == base.rotations[m.newVaultId := m]
    requires m.newVaultId in d.vaults && d.vaults[m.newVaultId] == base.vaults[m.oldVaultId] && m.newVaultId in d.locks
    ensures AfterCommit(base, d.(registry := Some(cards)), m, cards)
  {
    var v := m.newVaultId;
    assert base.vaults - {v} == base.vaults && base.locks - {v} == base.locks && base.owners - {v} == base.owners;
  }

  /** Before the commit the new vault loses; its marker goes last. */
  method AbandonNewVault(em: Device, m: RotationMarker, ghost base: Disk) returns (o: Outcome)
    requires Fresh(base, m.newVaultId) && em.currentVault != Some(m.newVaultId)
    requires SameBut(base, em.disk.(rotations := base.rotations), m.newVaultId) && em.disk.rotations == base.rotations[m.newVaultId := m]
    modifies em`disk, em`currentVault, em`faults
    ensures BeforeCommit(base, em.disk, m)
    ensures o.Done? ==> em.disk == base
    ensures em.currentVault == old(em.currentVault)
    ensures old(em.faults) <= em.faults && (em.faults == old(em.faults) ==> o.Done?)
  {
    var v := m.newVaultId;
    ghost var before := em.disk;
    o := em.ClearAccountVault(v);
    AbandonedIsBefore(base, before, em.disk, m);
    if !o.Done? { return; }
    assert em.disk.rotations - {v} == base.rotations;
    o := em.Write(em.disk.(rotations := em.disk.rotations - {v}));
  }

  lemma {:induction false} AbandonedIsBefore(base: Disk, before: Disk, after: Disk, m: RotationMarker)
    requires Fresh(base, m.newVaultId)
    requires SameBut(base, before.(rotations := base.rotations), m.newVaultId) && before.rotations == base.rotations[m.newVaultId := m]
    requires ClearedPart(before, after, {m.newVaultId})
    ensures BeforeCommit(base, after, m)
    ensures Gone(after, m.newVaultId) ==> after.(rotations := base.rotations) == base
  {
    var v := m.newVaultId;
    OnlyMore(base.vaults, before.vaults, after.vaults, v);
    OnlyMore(base.locks, before.locks, after.locks, v);
    OnlyMore(base.owners, before.owners, after.owners, v);
  }

  lemma {:induction false} OnlyMore<V>(m: map<VaultId, V>, before: map<VaultId, V>, after: map<VaultId, V>, v: VaultId)
    requires v !in m && before - {v} == m - {v} && Shrunk(before, after, {v})
    ensures after - {v} == m - {v}
    ensures v !in after ==> after == m
  {
    assert forall k :: k in after - {v} ==> (before - {v})[k] == after[k];
    assert m - {v} == m;
    assert v !in after ==> after - {v} == after;
  }

  /** After the commit the old vault loses; its marker goes last. */
  method ClearOldVault(em: Device, m: RotationMarker, ghost base: Disk, ghost cards: seq<Card>) returns (o: Outcome)
    requires Fresh(base, m.newVaultId) && m.oldVaultId != m.newVaultId && em.currentVault == Some(m.newVaultId)
    requires AfterCommit(base, em.disk, m, cards) && em.disk.rotations == base.rotations[m.newVaultId := m]
    modifies em`disk, em`currentVault, em`faults
    ensures AfterCommit(base, em.disk, m, cards)
    ensures em.currentVault == Some(m.newVaultId)
    ensures o.Done? ==> em.disk.rotations == base.rotations && Gone(em.disk, m.oldVaultId)
    ensures forall u, k :: old(Owned(em.disk, m.newVaultId, u, k)) ==> Owned(em.disk, m.newVaultId, u, k)
    ensures old(em.faults) <= em.faults && (em.faults == old(em.faults) ==> o.Done?)
  {
    ghost var before := em.disk;
    o := em.ClearAccountVault(m.oldVaultId);
    ClearingStaysCommitted(base, before, em.disk, m, cards);
    if !o.Done? { return; }
    UnmarkingStaysCommitted(base, em.disk, m, cards);
    o := em.Write(em.disk.(rotations := em.disk.rotations - {m.newVaultId}));
  }

  lemma {:induction false} ClearingStaysCommitted(base: Disk, d: Disk, d': Disk, m: RotationMarker, cards: seq<Card>)
    requires AfterCommit(base, d, m, cards) && ClearedPart(d, d', {m.oldVaultId}) && m.oldVaultId != m.newVaultId
    requires d.rotations == base.rotations[m.newVaultId := m]
    ensures AfterCommit(base, d', m, cards) && d'.rotations == d.rotations
  {
  }

  lemma {:induction false} UnmarkingStaysCommitted(base: Disk, d: Disk, m: RotationMarker, cards: seq<Card>)
    requires Fresh(base, m.newVaultId) && AfterCommit(base, d, m, cards) && Gone(d, m.oldVaultId)
    requires d.rotations == base.rotations[m.newVaultId := m]
    ensures d.rotations - {m.newVaultId} == base.rotations
    ensures AfterCommit(base, d.(rotations := d.rotations - {m.newVaultId}), m, cards)
  {
    assert d.rotations - {m.newVaultId} == base.rotations;
  }
}
