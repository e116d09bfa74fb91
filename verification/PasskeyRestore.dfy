/** Restoring an account from a backup behind marks: the import, its undo, and the later clearing of what is left. */
module PasskeyRestore {
  import opened Prelude
  import opened JsText
  import opened VaultStore

  /** What the stores satisfy whatever failed in the past. */
  predicate Consistent(d: Disk) {
    DistinctUsers(Cards(d)) && MarksMatch(d.marks)
  }

  function MarkedVaults(m: Marks): set<VaultId> {
    m.pending.Keys + m.leftover.Keys
  }

  predicate InUse(cards: seq<Card>, current: Option<VaultId>, v: VaultId) {
    current == Some(v) || Names(cards, v)
  }

  // ---------- removing marks ----------

  /** d's marks with some removed. */
  predicate FewerMarks(m: Marks, m': Marks) {
    Shrunk(m.pending, m'.pending, MarkedVaults(m)) && Shrunk(m.leftover, m'.leftover, MarkedVaults(m))
  }

  lemma {:induction false} FewerMarksStayMatched(m: Marks, m': Marks)
    requires MarksMatch(m) && FewerMarks(m, m')
    ensures MarksMatch(m')
  {
  }

  lemma {:induction false} FewerMarksStaySane(m: Marks, m': Marks)
    requires MarksSane(m) && FewerMarks(m, m')
    ensures MarksSane(m')
  {
    forall c: Card | MarkedFailed(m', c)
      ensures MarkedFailed(m, c)
    {
    }
  }

  /** Removing the marks of a vault no card names, or marks that are not of a failed restore, changes nothing shown. */
  lemma {:induction false} ShownWithoutMarks(d: Disk, d': Disk, v: VaultId)
    requires d'.registry == d.registry
    requires d'.marks.pending == d.marks.pending || d'.marks.pending == d.marks.pending - {v}
    requires d'.marks.leftover == d.marks.leftover || d'.marks.leftover == d.marks.leftover - {v}
    requires !Names(Cards(d), v) || (FailedMark(d.marks, v).None? && d'.marks.leftover == d.marks.leftover)
    ensures Shown(d') == Shown(d)
  {
    forall c | c in Cards(d)
      ensures OneShown(d.marks, c, {}) == OneShown(d'.marks, c, {})
    {
      var i :| 0 <= i < |Cards(d)| && Cards(d)[i] == c;
      assert !Names(Cards(d), v) ==> c.vaultId != Some(v);
      assert c.vaultId.Some? ==> FailedMark(d'.marks, c.vaultId.value) == FailedMark(d.marks, c.vaultId.value);
    }
    LoadedSame(d.marks, d'.marks, Cards(d), {}, {});
  }

  /** Writing the shown cards as the registry changes nothing shown. */
  lemma {:induction false} ShownOfShown(d: Disk)
    requires MarksSane(d.marks)
    ensures Shown(d.(registry := Some(Shown(d)))) == Shown(d)
  {
    forall c | c in Shown(d)
      ensures !MarkedFailed(d.marks, c)
    {
      NeverShowsFailed(d, c);
    }
    LoadedOfUnmarked(d.marks, Shown(d), {});
  }

  // ---------- #clearRestoreLeftovers ----------

  /** One vault of the loop, no step but reads failing; cards are the ones that were loaded, and unread the vaults
      whose mark could not be read: they count as not failed. */
  function OneCleaned(d: Disk, cards: seq<Card>, current: Option<VaultId>, unread: set<VaultId>, v: VaultId): Disk {
    if InUse(cards, current, v) then
      if FailedMark(d.marks, v).Some? && v !in unread then d
      else d.(marks := d.marks.(pending := d.marks.pending - {v}))
    else
      d.(registry := if Names(Cards(d), v) then Some(cards) else d.registry,
         vaults := d.vaults - {v}, locks := d.locks - {v}, owners := d.owners - {v},
         marks := Marks(d.marks.pending - {v}, d.marks.leftover - {v}))
  }

  function Cleaned(d: Disk, cards: seq<Card>, current: Option<VaultId>, unread: set<VaultId>, vaultIds: seq<VaultId>): Disk {
    if vaultIds == [] then d
    else
      var n := |vaultIds| - 1;
      OneCleaned(Cleaned(d, cards, current, unread, vaultIds[..n]), cards, current, unread, vaultIds[n])
  }

  lemma {:induction false} CleanedIgnores(d: Disk, cards: seq<Card>, current: Option<VaultId>, unread: set<VaultId>, vaultIds: seq<VaultId>, v: VaultId)
    requires v !in vaultIds
    ensures Cleaned(d, cards, current, unread + {v}, vaultIds) == Cleaned(d, cards, current, unread, vaultIds)
  {
    if vaultIds != [] {
      assert vaultIds[|vaultIds| - 1] != v;
      CleanedIgnores(d, cards, current, unread, vaultIds[..|vaultIds| - 1], v);
    }
  }

  /** What holds of the disk d at every moment of a clearing that started at d0, whatever fails. */
  predicate ClearingFrame(d0: Disk, d: Disk, cards: seq<Card>, current: Option<VaultId>) {
    && (d.registry == d0.registry || d.registry == Some(cards))
    && d.rotations == d0.rotations && FewerMarks(d0.marks, d.marks)
    && Shrunk(d0.vaults, d.vaults, Unused(d0, cards, current)) && Shrunk(d0.locks, d.locks, Unused(d0, cards, current))
    && Shrunk(d0.owners, d.owners, Unused(d0, cards, current))
  }

  /** The marked vaults that no loaded card names and that are not open. */
  function Unused(d0: Disk, cards: seq<Card>, current: Option<VaultId>): set<VaultId> {
    set v | v in MarkedVaults(d0.marks) && !InUse(cards, current, v)
  }

  /** Why a mark may be gone: its vault and its card are, or the restore stands. */
  predicate Settled(d0: Disk, d: Disk, cards: seq<Card>, current: Option<VaultId>, v: VaultId) {
    if InUse(cards, current, v) then FailedMark(d0.marks, v).None?
    else Gone(d, v) && !Names(Cards(d), v)
  }

  predicate MarkDropped(m: Marks, m': Marks, v: VaultId) {
    (v in m.pending && v !in m'.pending) || (v in m.leftover && v !in m'.leftover)
  }

  /** The pending mark of a vault in use is gone because its mark could not be read. */
  predicate DroppedUnread(d0: Disk, d: Disk, cards: seq<Card>, current: Option<VaultId>, unread: set<VaultId>, v: VaultId) {
    v in unread && InUse(cards, current, v) && (v in d0.marks.leftover ==> v in d.marks.leftover)
  }

  /** Why any mark is gone, whatever could be read. */
  ghost predicate DropsJustified(d0: Disk, d: Disk, cards: seq<Card>, current: Option<VaultId>, unread: set<VaultId>) {
    forall v :: MarkDropped(d0.marks, d.marks, v) ==>
                  Settled(d0, d, cards, current, v) || DroppedUnread(d0, d, cards, current, unread, v)
  }

  predicate ShownKept(d: Disk, cards: seq<Card>) {
    Shown(d) == cards && MarksSane(d.marks)
  }

  /** A step that drops no mark keeps every dropped mark justified. */
  lemma {:induction false} JustifiedStays(d0: Disk, d: Disk, d': Disk, cards: seq<Card>, current: Option<VaultId>, unread: set<VaultId>)
    requires DropsJustified(d0, d, cards, current, unread)
    requires d'.marks == d.marks && (d'.registry == d.registry || d'.registry == Some(cards))
    requires d'.vaults.Keys <= d.vaults.Keys && d'.locks.Keys <= d.locks.Keys && d'.owners.Keys <= d.owners.Keys
    ensures DropsJustified(d0, d', cards, current, unread)
  {
  }

  lemma {:induction false} JustifiedGrows(d0: Disk, d: Disk, cards: seq<Card>, current: Option<VaultId>, unread: set<VaultId>, v: VaultId)
    requires DropsJustified(d0, d, cards, current, unread)
    ensures DropsJustified(d0, d, cards, current, unread + {v})
  {
  }

  lemma {:induction false} FewerStillFewer(m0: Marks, m: Marks, v: VaultId, pending: bool, leftover: bool)
    requires FewerMarks(m0, m)
    ensures FewerMarks(m0, Marks(if pending then m.pending - {v} else m.pending, if leftover then m.leftover - {v} else m.leftover))
    ensures FewerMarks(m, Marks(if pending then m.pending - {v} else m.pending, if leftover then m.leftover - {v} else m.leftover))
  {
  }

  /** The disk without one or both marks of v. */
  function Unmark(d: Disk, v: VaultId, pending: bool, leftover: bool): Disk {
    d.(marks := Marks(if pending then d.marks.pending - {v} else d.marks.pending,
                      if leftover then d.marks.leftover - {v} else d.marks.leftover))
  }

  lemma {:induction false} DropJustified(d0: Disk, d: Disk, cards: seq<Card>, current: Option<VaultId>, unread: set<VaultId>,
      v: VaultId, pending: bool, leftover: bool)
    requires DropsJustified(d0, d, cards, current, unread)
    requires Settled(d0, d, cards, current, v) || (DroppedUnread(d0, d, cards, current, unread, v) && !leftover)
    ensures DropsJustified(d0, Unmark(d, v, pending, leftover), cards, current, unread)
  {
    var d' := Unmark(d, v, pending, leftover);
    forall w | MarkDropped(d0.marks, d'.marks, w)
      ensures Settled(d0, d', cards, current, w) || DroppedUnread(d0, d', cards, current, unread, w)
    {
      assert w != v ==> MarkDropped(d0.marks, d.marks, w);
    }
  }

  /** Dropping marks of v without showing anything else. */
  lemma {:induction false} DropKeepsShown(d: Disk, cards: seq<Card>, v: VaultId, pending: bool, leftover: bool)
    requires ShownKept(d, cards)
    requires !Names(Cards(d), v) || (FailedMark(d.marks, v).None? && !leftover)
    ensures ShownKept(Unmark(d, v, pending, leftover), cards)
  {
    ShownWithoutMarks(d, Unmark(d, v, pending, leftover), v);
    FewerStillFewer(d.marks, d.marks, v, pending, leftover);
    FewerMarksStaySane(d.marks, Unmark(d, v, pending, leftover).marks);
  }

  method RemovePending(em: Device, v: VaultId, ghost d0: Disk, ghost read: bool, ghost unread: set<VaultId>) returns (o: Outcome)
    requires ClearingFrame(d0, em.disk, em.localUserCards, em.currentVault)
    requires DropsJustified(d0, em.disk, em.localUserCards, em.currentVault, unread)
    requires InUse(em.localUserCards, em.currentVault, v)
    requires v in MarkedVaults(d0.marks) && !MarkDropped(d0.marks, em.disk.marks, v)
    requires if read then FailedMark(em.disk.marks, v).None? else v in unread
    modifies em`disk, em`faults
    ensures ClearingFrame(d0, em.disk, em.localUserCards, em.currentVault)
    ensures DropsJustified(d0, em.disk, em.localUserCards, em.currentVault, unread)
    ensures forall w :: w != v && MarkDropped(d0.marks, em.disk.marks, w) ==> MarkDropped(d0.marks, old(em.disk).marks, w)
    ensures read && old(ShownKept(em.disk, em.localUserCards)) ==> ShownKept(em.disk, em.localUserCards)
    ensures o.Done? ==> em.disk == old(em.disk).(marks := old(em.disk).marks.(pending := old(em.disk).marks.pending - {v}))
    ensures old(em.faults) <= em.faults && (em.faults == old(em.faults) ==> o.Done?)
  {
    FewerStillFewer(d0.marks, em.disk.marks, v, true, false);
    DropJustified(d0, em.disk, em.localUserCards, em.currentVault, unread, v, true, false);
    if read && ShownKept(em.disk, em.localUserCards) {
      DropKeepsShown(em.disk, em.localUserCards, v, true, false);
    }
    o := em.Write(em.disk.(marks := em.disk.marks.(pending := em.disk.marks.pending - {v})));
  }

  method DropMarks(em: Device, v: VaultId, ghost d0: Disk, ghost safe: bool, ghost unread: set<VaultId>) returns (o: Outcome)
    requires ClearingFrame(d0, em.disk, em.localUserCards, em.currentVault)
    requires DropsJustified(d0, em.disk, em.localUserCards, em.currentVault, unread)
    requires !InUse(em.localUserCards, em.currentVault, v) && Gone(em.disk, v) && !Names(Cards(em.disk), v)
    requires safe ==> ShownKept(em.disk, em.localUserCards)
    modifies em`disk, em`faults
    ensures ClearingFrame(d0, em.disk, em.localUserCards, em.currentVault)
    ensures DropsJustified(d0, em.disk, em.localUserCards, em.currentVault, unread)
    ensures forall w :: w != v && MarkDropped(d0.marks, em.disk.marks, w) ==> MarkDropped(d0.marks, old(em.disk).marks, w)
    ensures safe ==> ShownKept(em.disk, em.localUserCards)
    ensures o.Done? ==> em.disk == old(em.disk).(marks := Marks(old(em.disk).marks.pending - {v}, old(em.disk).marks.leftover - {v}))
    ensures old(em.faults) <= em.faults && (em.faults == old(em.faults) ==> o.Done?)
  {
    FewerStillFewer(d0.marks, em.disk.marks, v, false, true);
    DropJustified(d0, em.disk, em.localUserCards, em.currentVault, unread, v, false, true);
    if safe { DropKeepsShown(em.disk, em.localUserCards, v, false, true); }
    o := em.Write(em.disk.(marks := em.disk.marks.(leftover := em.disk.marks.leftover - {v})));
    if !o.Done? { return; }
    FewerStillFewer(d0.marks, em.disk.marks, v, true, false);
    DropJustified(d0, em.disk, em.localUserCards, em.currentVault, unread, v, true, false);
    if safe { DropKeepsShown(em.disk, em.localUserCards, v, true, false); }
    o := em.Write(em.disk.(marks := em.disk.marks.(pending := em.disk.marks.pending - {v})));
  }

  lemma {:induction false} ShrunkToNothing<V>(m: map<VaultId, V>, m': map<VaultId, V>, v: VaultId)
    requires Shrunk(m, m', {v}) && v !in m'
    ensures m' == m - {v}
  {
  }

  /** The registry without the vault, if it names it. */
  method WriteShown(em: Device, v: VaultId, ghost d0: Disk, ghost safe: bool, ghost unread: set<VaultId>) returns (o: Outcome)
    requires ClearingFrame(d0, em.disk, em.localUserCards, em.currentVault)
    requires DropsJustified(d0, em.disk, em.localUserCards, em.currentVault, unread)
    requires !InUse(em.localUserCards, em.currentVault, v)
    requires safe ==> ShownKept(em.disk, em.localUserCards)
    modifies em`disk, em`faults
    ensures ClearingFrame(d0, em.disk, em.localUserCards, em.currentVault) && em.disk.marks == old(em.disk).marks
    ensures DropsJustified(d0, em.disk, em.localUserCards, em.currentVault, unread)
    ensures safe ==> ShownKept(em.disk, em.localUserCards)
    ensures o.Done? ==> !Names(Cards(em.disk), v)
    ensures o.Done? ==> em.disk == old(em.disk).(registry :=
              if Names(Cards(old(em.disk)), v) then Some(em.localUserCards) else old(em.disk).registry)
    ensures old(em.faults) <= em.faults && (em.faults == old(em.faults) ==> o.Done?)
  {
    o := em.Step();
    if !o.Done? { return; }
    if Names(Cards(em.disk), v) {
      ghost var before := em.disk;
      if safe { ShownOfShown(before); }
      o := em.Write(em.disk.(registry := Some(em.localUserCards)));
      JustifiedStays(d0, before, em.disk, em.localUserCards, em.currentVault, unread);
    }
  }

  method ClearMarkedVault(em: Device, v: VaultId, ghost d0: Disk, ghost safe: bool, ghost unread: set<VaultId>) returns (o: Outcome)
    requires ClearingFrame(d0, em.disk, em.localUserCards, em.currentVault)
    requires DropsJustified(d0, em.disk, em.localUserCards, em.currentVault, unread)
    requires v in MarkedVaults(d0.marks) && !InUse(em.localUserCards, em.currentVault, v)
    requires safe ==> ShownKept(em.disk, em.localUserCards)
    modifies em`disk, em`currentVault, em`faults
    ensures em.currentVault == old(em.currentVault)
    ensures ClearingFrame(d0, em.disk, em.localUserCards, em.currentVault)
    ensures DropsJustified(d0, em.disk, em.localUserCards, em.currentVault, unread)
    ensures em.disk.marks == old(em.disk).marks && em.disk.registry == old(em.disk).registry
    ensures safe ==> ShownKept(em.disk, em.localUserCards)
    ensures o.Done? ==> Gone(em.disk, v) && em.disk == old(em.disk).(vaults := old(em.disk).vaults - {v},
              locks := old(em.disk).locks - {v}, owners := old(em.disk).owners - {v})
    ensures old(em.faults) <= em.faults && (em.faults == old(em.faults) ==> o.Done?)
  {
    ghost var before := em.disk;
    o := em.ClearAccountVault(v);
    ClearingStaysFramed(d0, before, em.disk, em.localUserCards, em.currentVault, v);
    JustifiedStays(d0, before, em.disk, em.localUserCards, em.currentVault, unread);
    if o.Done? {
      ShrunkToNothing(before.vaults, em.disk.vaults, v);
      ShrunkToNothing(before.locks, em.disk.locks, v);
      ShrunkToNothing(before.owners, em.disk.owners, v);
    }
  }

  /** The try block of the loop: the registry without the vault, the vault, its marks. */
  method ClearUnused(em: Device, v: VaultId, ghost d0: Disk, ghost unread: set<VaultId>) returns (o: Outcome)
    requires ClearingFrame(d0, em.disk, em.localUserCards, em.currentVault)
    requires DropsJustified(d0, em.disk, em.localUserCards, em.currentVault, unread)
    requires v in MarkedVaults(d0.marks) && !InUse(em.localUserCards, em.currentVault, v)
    modifies em`disk, em`currentVault, em`faults
    ensures em.currentVault == old(em.currentVault)
    ensures ClearingFrame(d0, em.disk, em.localUserCards, em.currentVault)
    ensures DropsJustified(d0, em.disk, em.localUserCards, em.currentVault, unread)
    ensures forall w :: w != v && MarkDropped(d0.marks, em.disk.marks, w) ==> MarkDropped(d0.marks, old(em.disk).marks, w)
    ensures old(ShownKept(em.disk, em.localUserCards)) ==> ShownKept(em.disk, em.localUserCards)
    ensures o.Done? ==> em.disk == OneCleaned(old(em.disk), em.localUserCards, em.currentVault, unread, v)
    ensures old(em.faults) <= em.faults && (em.faults == old(em.faults) ==> o.Done?)
  {
    ghost var safe := ShownKept(em.disk, em.localUserCards);
    o := WriteShown(em, v, d0, safe, unread);
    if !o.Done? { return; }
    o := ClearMarkedVault(em, v, d0, safe, unread);
    if !o.Done? { return; }
    o := DropMarks(em, v, d0, safe, unread);
  }

  lemma {:induction false} ClearingStaysFramed(d0: Disk, d: Disk, d': Disk, cards: seq<Card>, current: Option<VaultId>, v: VaultId)
    requires ClearingFrame(d0, d, cards, current) && ClearedPart(d, d', {v})
    requires v in MarkedVaults(d0.marks) && !InUse(cards, current, v)
    ensures ClearingFrame(d0, d', cards, current)
  {
    assert v in Unused(d0, cards, current);
  }

  /** The body of the loop; left says that the vault still waits. */
  method ClearOneLeftover(em: Device, v: VaultId, ghost d0: Disk, ghost before: set<VaultId>)
    returns (o: Outcome, left: bool, ghost unread: set<VaultId>, ghost faulted: bool)
    requires ClearingFrame(d0, em.disk, em.localUserCards, em.currentVault)
    requires DropsJustified(d0, em.disk, em.localUserCards, em.currentVault, before)
    requires v in MarkedVaults(d0.marks) && !MarkDropped(d0.marks, em.disk.marks, v) && v !in before
    modifies em`disk, em`currentVault, em`faults
    ensures em.currentVault == old(em.currentVault) && !o.Threw?
    ensures unread == before || unread == before + {v}
    ensures ClearingFrame(d0, em.disk, em.localUserCards, em.currentVault)
    ensures DropsJustified(d0, em.disk, em.localUserCards, em.currentVault, unread)
    ensures forall w :: w != v && MarkDropped(d0.marks, em.disk.marks, w) ==> MarkDropped(d0.marks, old(em.disk).marks, w)
    ensures v !in unread && old(ShownKept(em.disk, em.localUserCards)) ==> ShownKept(em.disk, em.localUserCards)
    ensures o.Done? && !faulted ==> em.disk == OneCleaned(old(em.disk), em.localUserCards, em.currentVault, unread, v)
    ensures o.Done? && !faulted && !left ==> MarkedVaults(em.disk.marks) <= MarkedVaults(old(em.disk).marks) - {v} || v in unread
    ensures old(em.faults) <= em.faults && (em.faults == old(em.faults) ==> o.Done? && !faulted && unread == before)
    ensures em.faults == old(em.faults) ==> left == (InUse(em.localUserCards, em.currentVault, v) && FailedMark(old(em.disk).marks, v).Some?)
  {
    faulted, left := true, false;
    var mark;
    ghost var read;
    o, mark, read := em.FailedRestoreMark(v);
    var failed := mark.Some?;
    unread := if read then before else before + {v};
    JustifiedGrows(d0, em.disk, em.localUserCards, em.currentVault, before, v);
    if o.Crashed? { return; }
    var inUse := InUse(em.localUserCards, em.currentVault, v);
    if inUse && !failed {
      o := RemovePending(em, v, d0, read, unread);
      return if o.Crashed? then Crashed else Done, false, unread, o.Threw?;
    }
    if inUse {
      return Done, true, unread, false;
    }
    o := ClearUnused(em, v, d0, unread);
    return if o.Crashed? then Crashed else Done, o.Threw?, unread, o.Threw?;
  }

  ghost predicate ListsVaults(vaultIds: seq<VaultId>, vs: set<VaultId>) {
    forall v :: v in vaultIds <==> v in vs
  }

  lemma {:induction false} ListsOneMore(vaultIds: seq<VaultId>, all: set<VaultId>, todo: set<VaultId>, v: VaultId)
    requires ListsVaults(vaultIds, all - (todo + {v})) && v in all && v !in todo
    ensures ListsVaults(vaultIds + [v], all - todo)
  {
  }

  /** The loop over the marked vaults. */
  method ClearEach(em: Device, ghost d0: Disk)
    returns (o: Outcome, left: nat, ghost vaultIds: seq<VaultId>, ghost unread: set<VaultId>, ghost faulted: bool)
    requires em.disk == d0
    modifies em`disk, em`currentVault, em`faults
    ensures em.currentVault == old(em.currentVault) && !o.Threw? && unread <= MarkedVaults(d0.marks)
    ensures ClearingFrame(d0, em.disk, em.localUserCards, em.currentVault)
    ensures DropsJustified(d0, em.disk, em.localUserCards, em.currentVault, unread)
    ensures unread == {} && ShownKept(d0, em.localUserCards) ==> ShownKept(em.disk, em.localUserCards)
    ensures o.Done? && !faulted ==> em.disk == Cleaned(d0, em.localUserCards, em.currentVault, unread, vaultIds)
    ensures o.Done? && !faulted ==> forall v :: v in vaultIds <==> v in MarkedVaults(d0.marks)
    ensures o.Done? && !faulted && left == 0 && unread == {} ==> MarkedVaults(em.disk.marks) == {}
    ensures old(em.faults) <= em.faults && (em.faults == old(em.faults) ==> o.Done? && !faulted && unread == {})
  {
    o, left, vaultIds, unread, faulted := Done, 0, [], {}, false;
    ghost var shown := ShownKept(d0, em.localUserCards);
    var todo := MarkedVaults(em.disk.marks);
    while todo != {}
      invariant o.Done? && em.currentVault == old(em.currentVault)
      invariant ClearingFrame(d0, em.disk, em.localUserCards, em.currentVault) == true
      invariant DropsJustified(d0, em.disk, em.localUserCards, em.currentVault, unread) == true
      invariant todo <= MarkedVaults(d0.marks) && ListsVaults(vaultIds, MarkedVaults(d0.marks) - todo)
      invariant unread <= MarkedVaults(d0.marks) - todo
      invariant forall v :: v in todo ==> !MarkDropped(d0.marks, em.disk.marks, v)
      invariant unread == {} && shown ==> ShownKept(em.disk, em.localUserCards) == true
      invariant !faulted ==> em.disk == Cleaned(d0, em.localUserCards, em.currentVault, unread, vaultIds)
      invariant !faulted && left == 0 && unread == {} ==> MarkedVaults(em.disk.marks) <= todo
      invariant old(em.faults) <= em.faults && (em.faults == old(em.faults) ==> !faulted && unread == {})
    {
      var v :| v in todo;
      todo := todo - {v};
      ghost var fault;
      ghost var before := unread;
      var waits;
      CleanedIgnores(d0, em.localUserCards, em.currentVault, before, vaultIds, v);
      o, waits, unread, fault := ClearOneLeftover(em, v, d0, before);
      faulted := faulted || fault;
      ListsOneMore(vaultIds, MarkedVaults(d0.marks), todo, v);
      vaultIds := vaultIds + [v];
      assert vaultIds[..|vaultIds| - 1] + [v] == vaultIds;
      if o.Crashed? { return; }
      if waits { left := left + 1; }
    }
  }

  /** What loading makes of a disk: no cards if the registry could not be read (None), else the cards as shown but for
      those whose marks could not be read. */
  function LoadedCards(d: Disk, load: Option<set<Card>>): seq<Card> {
    match load
    case None => []
    case Some(unread) => Loaded(d.marks, Cards(d), unread)
  }

  /**
   * #clearRestoreLeftovers, for the cards it loads and the vaults whose marks it cannot read. Whatever fails and wherever
   * it stops, only marked vaults that no loaded card names are touched, and a mark goes only when its vault and card are
   * gone, or its restore stands, or it is the pending mark of a vault in use and could not be read. With everything read,
   * and no mark that puts back a failed card, the same cards are shown as before. Without a failing write it computes Cleaned.
   */
  method ClearRestoreLeftovers(em: Device)
    returns (o: Outcome, left: nat, ghost load: Option<set<Card>>, ghost vaultIds: seq<VaultId>, ghost unread: set<VaultId>, ghost faulted: bool)
    requires Consistent(em.disk)
    modifies em
    ensures em.currentVault == old(em.currentVault) && Consistent(em.disk) && unread <= MarkedVaults(old(em.disk).marks)
    ensures ClearingFrame(old(em.disk), em.disk, LoadedCards(old(em.disk), load), em.currentVault)
    ensures DropsJustified(old(em.disk), em.disk, LoadedCards(old(em.disk), load), em.currentVault, unread)
    ensures MarksSane(old(em.disk).marks) ==> MarksSane(em.disk.marks)
    ensures MarksSane(old(em.disk).marks) && load == Some({}) && unread == {} ==> Shown(em.disk) == Shown(old(em.disk))
    ensures o.Done? && !faulted ==> em.disk == Cleaned(old(em.disk), LoadedCards(old(em.disk), load), em.currentVault, unread, vaultIds)
    ensures o.Done? && !faulted ==> forall v :: v in vaultIds <==> v in MarkedVaults(old(em.disk).marks)
    ensures o.Done? && !faulted && left == 0 && unread == {} ==> MarkedVaults(em.disk.marks) == {}
    ensures old(em.faults) <= em.faults
    ensures em.faults == old(em.faults) ==> o.Done? && !faulted && load == Some({}) && unread == {}
  {
    ghost var d0 := em.disk;
    left, load, vaultIds, unread, faulted := 0, Some({}), [], {}, false;
    o := em.Step();
    if !o.Done? { return; }
    var todo := MarkedVaults(em.disk.marks);
    if todo == {} { return; }
    ghost var registryRead, unreadCards;
    o, registryRead, unreadCards := em.LoadLocalUserCards();
    if !o.Done? { return; }
    load := if registryRead then Some(unreadCards) else None;
    LoadedDistinct(d0.marks, Cards(d0), unreadCards);
    o, left, vaultIds, unread, faulted := ClearEach(em, d0);
    FewerMarksStayMatched(d0.marks, em.disk.marks);
    if MarksSane(d0.marks) { FewerMarksStaySane(d0.marks, em.disk.marks); }
  }

  /**
   * The registry read of the loading is what all of this rests on: when it fails, no cards are loaded, and clearing
   * writes an empty registry over every account's card exactly when the registry names some marked vault that is not
   * open. Otherwise it leaves the registry alone.
   */
  lemma {:induction false} UnreadRegistryIsForgotten(d: Disk, current: Option<VaultId>, unread: set<VaultId>, vaultIds: seq<VaultId>)
    ensures Cleaned(d, [], current, unread, vaultIds).registry ==
            if exists v :: v in vaultIds && current != Some(v) && Names(Cards(d), v) then Some([]) else d.registry
  {
    if vaultIds != [] {
      var before, v := vaultIds[..|vaultIds| - 1], vaultIds[|vaultIds| - 1];
      UnreadRegistryIsForgotten(d, current, unread, before);
      assert vaultIds == before + [v];
      assert !InUse([], current, v) <==> current != Some(v);
      assert forall w :: w in vaultIds <==> w in before || w == v;
    }
  }

  function MarkAt(m: map<VaultId, RestoreMark>, v: VaultId): Option<RestoreMark> {
    if v in m then Some(m[v]) else None
  }

  lemma {:induction false} OneCleanedMarks(d: Disk, cards: seq<Card>, current: Option<VaultId>, unread: set<VaultId>, w: VaultId, v: VaultId)
    requires InUse(cards, current, v)
    ensures var m := OneCleaned(d, cards, current, unread, w).marks;
            && MarkAt(m.leftover, v) == MarkAt(d.marks.leftover, v)
            && MarkAt(m.pending, v) ==
               if v == w && (FailedMark(d.marks, v).None? || v in unread) then None else MarkAt(d.marks.pending, v)
  {
  }

  /**
   * A vault in use that the loop comes by keeps its pending mark exactly when a mark says its restore failed and that
   * could be read. A failed restore whose only mark is its pending one is so forgotten exactly when the read fails.
   */
  lemma {:induction false} UnreadMarkIsDropped(d: Disk, cards: seq<Card>, current: Option<VaultId>, unread: set<VaultId>, vaultIds: seq<VaultId>, v: VaultId)
    requires InUse(cards, current, v)
    ensures var m := Cleaned(d, cards, current, unread, vaultIds).marks;
            && MarkAt(m.leftover, v) == MarkAt(d.marks.leftover, v)
            && MarkAt(m.pending, v) ==
               if v in vaultIds && (FailedMark(d.marks, v).None? || v in unread) then None else MarkAt(d.marks.pending, v)
  {
    if vaultIds != [] {
      var before, w := vaultIds[..|vaultIds| - 1], vaultIds[|vaultIds| - 1];
      UnreadMarkIsDropped(d, cards, current, unread, before, v);
      OneCleanedMarks(Cleaned(d, cards, current, unread, before), cards, current, unread, w, v);
      assert vaultIds == before + [w];
      assert v in vaultIds <==> v in before || v == w;
    }
  }

  // ---------- #importVaultKeys into a new vault ----------

  /** The private keys of a backup; guardian seeds came later. */
  datatype Keys = Keys(sign: JsString, crypt: JsString, evm: JsString, contact: JsString, metaSeed: Option<JsString>)

  /** All of the keys are in the vault, and it can be opened. */
  predicate HoldsKeys(d: Disk, v: VaultId, keys: Keys) {
    && v in d.locks && v in d.vaults
    && Has(d.vaults[v], Ascii("sign_skey"), keys.sign) && Has(d.vaults[v], Ascii("crypt_skey"), keys.crypt)
    && Has(d.vaults[v], Ascii("evm_skey"), keys.evm) && Has(d.vaults[v], Ascii("contact_skey"), keys.contact)
    && (keys.metaSeed.Some? ==> Has(d.vaults[v], Ascii("meta_seed"), keys.metaSeed.value))
  }

  predicate Has(vault: Vault, name: JsString, value: JsString) {
    name in vault && vault[name] == value
  }

  /** The cards with the restored account's, in place of the card found or at the end. */
  function WithCard(cards: seq<Card>, c: Card): seq<Card> {
    if CardOf(cards, c.userHash).Some? then Replaced(cards, c) else cards + [c]
  }

  function Without(cards: seq<Card>, u: UserHash): seq<Card> {
    if cards == [] then []
    else Without(cards[..|cards| - 1], u) + (if cards[|cards| - 1].userHash == u then [] else [cards[|cards| - 1]])
  }

  /** The undo's cards. */
  function PutBack(cards: seq<Card>, u: UserHash, replaced: Option<Card>): seq<Card> {
    match replaced
    case Some(card) => Replaced(cards, card)
    case None => Without(cards, u)
  }

  lemma {:induction false} ReplacedBack(cards: seq<Card>, c: Card, before: Card)
    requires DistinctUsers(cards) && before in cards && before.userHash == c.userHash
    ensures Replaced(Replaced(cards, c), before) == cards && Replaced(cards, before) == cards
  {
    forall i | 0 <= i < |cards|
      ensures Replaced(cards, before)[i] == cards[i] && Replaced(Replaced(cards, c), before)[i] == cards[i]
    {
      if cards[i].userHash == c.userHash {
        SameUserSameCard(cards, i, before);
      }
    }
  }

  lemma {:induction false} SameUserSameCard(cards: seq<Card>, i: nat, c: Card)
    requires DistinctUsers(cards) && i < |cards| && c in cards && cards[i].userHash == c.userHash
    ensures cards[i] == c
  {
    var j :| 0 <= j < |cards| && cards[j] == c;
  }

  lemma {:induction false} TakenOut(cards: seq<Card>, c: Card)
    requires forall i :: 0 <= i < |cards| ==> cards[i].userHash != c.userHash
    ensures Without(cards, c.userHash) == cards && Without(cards + [c], c.userHash) == cards
  {
    WithoutAbsent(cards, c.userHash);
    assert (cards + [c])[..|cards + [c]| - 1] == cards && (cards + [c])[|cards + [c]| - 1] == c;
  }

  /** Putting back undoes putting in, and does nothing where nothing was put in. */
  lemma {:induction false} PutBackUndoes(cards: seq<Card>, c: Card)
    requires DistinctUsers(cards)
    ensures PutBack(WithCard(cards, c), c.userHash, CardOf(cards, c.userHash)) == cards
    ensures PutBack(cards, c.userHash, CardOf(cards, c.userHash)) == cards
  {
    var before := CardOf(cards, c.userHash);
    if before.Some? {
      ReplacedBack(cards, c, before.value);
    } else {
      TakenOut(cards, c);
    }
  }

  lemma {:induction false} WithoutAbsent(cards: seq<Card>, u: UserHash)
    requires forall i :: 0 <= i < |cards| ==> cards[i].userHash != u
    ensures Without(cards, u) == cards
  {
    if cards != [] {
      WithoutAbsent(cards[..|cards| - 1], u);
    }
  }

  /** The part of the disk a restore writes, between the disk base and the cards it loaded, and now. */
  predicate Restoring(base: Disk, d: Disk, cards: seq<Card>, c: Card, v: VaultId) {
    && (d.registry == base.registry || d.registry == Some(cards) || d.registry == Some(WithCard(cards, c)))
    && d.rotations == base.rotations
    && d.vaults - {v} == base.vaults - {v} && d.locks - {v} == base.locks - {v} && d.owners - {v} == base.owners - {v}
    && d.marks.pending - {v} == base.marks.pending && d.marks.leftover - {v} == base.marks.leftover
    && (v in d.marks.pending ==>
          d.marks.pending[v] == RestoreMark(c.userHash, CardOf(cards, c.userHash), d.marks.pending[v].failed))
    && (v in d.marks.leftover ==>
          d.marks.leftover[v] == RestoreMark(c.userHash, CardOf(cards, c.userHash), false))
  }

  /** A mark of the vault is on disk. */
  predicate Marked(m: Marks, v: VaultId) {
    v in m.pending || v in m.leftover
  }

  lemma {:induction false} OtherMarksStay(base: Disk, d: Disk, cards: seq<Card>, c: Card, v: VaultId)
    requires Restoring(base, d, cards, c, v)
    ensures forall w :: w != v ==> MarkAt(d.marks.pending, w) == MarkAt(base.marks.pending, w)
                                   && MarkAt(d.marks.leftover, w) == MarkAt(base.marks.leftover, w)
  {
    forall w | w != v
      ensures MarkAt(d.marks.pending, w) == MarkAt(base.marks.pending, w)
      ensures MarkAt(d.marks.leftover, w) == MarkAt(base.marks.leftover, w)
    {
      assert w in d.marks.pending <==> w in d.marks.pending - {v};
      assert w in d.marks.leftover <==> w in d.marks.leftover - {v};
    }
  }

  lemma {:induction false} MarksStayMatched(base: Disk, d: Disk, cards: seq<Card>, c: Card, v: VaultId)
    requires MarksMatch(base.marks) && Restoring(base, d, cards, c, v)
    ensures MarksMatch(d.marks)
  {
    OtherMarksStay(base, d, cards, c, v);
    forall w | w in d.marks.pending && w != v
      ensures MarkMatches(d.marks.pending[w])
    {
      assert MarkAt(base.marks.pending, w) == Some(d.marks.pending[w]);
    }
    forall w | w in d.marks.leftover && w != v
      ensures MarkMatches(d.marks.leftover[w])
    {
      assert MarkAt(base.marks.leftover, w) == Some(d.marks.leftover[w]);
    }
    forall w | w in d.marks.leftover && w in d.marks.pending && w != v
      ensures d.marks.leftover[w].userHash == d.marks.pending[w].userHash
    {
      assert MarkAt(base.marks.leftover, w) == Some(d.marks.leftover[w]) && MarkAt(base.marks.pending, w) == Some(d.marks.pending[w]);
    }
  }

  /** The restore's mark would put back a card that is marked failed: one whose mark its loading could not read. */
  predicate PutsBackFailed(base: Disk, cards: seq<Card>, u: UserHash) {
    CardOf(cards, u).Some? && MarkedFailed(base.marks, CardOf(cards, u).value)
  }

  lemma {:induction false} OldMarksPutBack(base: Disk, d: Disk, cards: seq<Card>, c: Card, v: VaultId)
    requires MarksSane(base.marks) && Fresh(base, v) && Restoring(base, d, cards, c, v)
    ensures forall w :: w in d.marks.pending && w != v ==> PutsBackUnfailed(d.marks, d.marks.pending[w])
    ensures forall w :: w in d.marks.leftover && w != v ==> PutsBackUnfailed(d.marks, d.marks.leftover[w])
  {
    OtherMarksStay(base, d, cards, c, v);
    forall w | w in d.marks.pending && w != v
      ensures PutsBackUnfailed(d.marks, d.marks.pending[w])
    {
      assert MarkAt(base.marks.pending, w) == Some(d.marks.pending[w]);
      var earlier := base.marks.pending[w].replacedCard;
      if earlier.Some? { SameFailedMark(base, d, cards, c, v, earlier.value); }
    }
    forall w | w in d.marks.leftover && w != v
      ensures PutsBackUnfailed(d.marks, d.marks.leftover[w])
    {
      assert MarkAt(base.marks.leftover, w) == Some(d.marks.leftover[w]);
      var earlier := base.marks.leftover[w].replacedCard;
      if earlier.Some? { SameFailedMark(base, d, cards, c, v, earlier.value); }
    }
  }

  lemma {:induction false} CardOfUnnamed(cards: seq<Card>, u: UserHash, v: VaultId)
    requires !Names(cards, v) && CardOf(cards, u).Some?
    ensures CardOf(cards, u).value.vaultId != Some(v)
  {
    var i :| 0 <= i < |cards| && cards[i] == CardOf(cards, u).value;
  }

  /** A restore leaves a mark that puts back a failed card exactly while it has a mark on disk and loaded its account's
      card unread from one marked failed. */
  lemma {:induction false} SanityLostIff(base: Disk, d: Disk, cards: seq<Card>, c: Card, v: VaultId)
    requires MarksSane(base.marks) && Fresh(base, v) && !Names(cards, v) && Restoring(base, d, cards, c, v)
    ensures MarksSane(d.marks) <==> !(Marked(d.marks, v) && PutsBackFailed(base, cards, c.userHash))
  {
    MarksStayMatched(base, d, cards, c, v);
    OldMarksPutBack(base, d, cards, c, v);
    if CardOf(cards, c.userHash).Some? {
      CardOfUnnamed(cards, c.userHash, v);
      SameFailedMark(base, d, cards, c, v, CardOf(cards, c.userHash).value);
    }
  }

  // ---------- what is shown while restoring ----------

  /** Loading the cards with one in the place of the account's. */
  function InPlace(m: Marks, cards: seq<Card>, middle: Card): seq<Card> {
    if cards == [] then []
    else
      var last := cards[|cards| - 1];
      InPlace(m, cards[..|cards| - 1], middle) + (if last.userHash == middle.userHash then [middle] else OneShown(m, last, {}))
  }

  /** The cards shown at any moment of a restore that loaded the given cards, which may be none or some with unread marks.
      In place of the account's loaded card stands the restored one, or, while that is marked failed, the loaded one
      again, whose own mark is not looked at. */
  function ShownAfter(base: Disk, d: Disk, cards: seq<Card>, c: Card, v: VaultId): seq<Card> {
    if d.registry == Some(WithCard(cards, c)) then
      var failed, loaded := FailedMark(d.marks, v).Some?, CardOf(cards, c.userHash);
      if loaded.Some? then InPlace(base.marks, cards, if failed then loaded.value else c)
      else Loaded(base.marks, cards, {}) + if failed then [] else [c]
    else if d.registry == base.registry then Shown(base)
    else Loaded(base.marks, cards, {})
  }

  lemma {:induction false} LoadedLikewise(base: Disk, d: Disk, cards: seq<Card>, c: Card, v: VaultId, xs: seq<Card>)
    requires Restoring(base, d, cards, c, v) && !Names(xs, v)
    ensures forall x :: x in xs ==> OneShown(d.marks, x, {}) == OneShown(base.marks, x, {})
    ensures Loaded(d.marks, xs, {}) == Loaded(base.marks, xs, {})
  {
    forall x | x in xs
      ensures OneShown(d.marks, x, {}) == OneShown(base.marks, x, {})
    {
      var i :| 0 <= i < |xs| && xs[i] == x;
      SameFailedMark(base, d, cards, c, v, x);
    }
    LoadedSame(d.marks, base.marks, xs, {}, {});
  }

  lemma {:induction false} CardShown(base: Disk, d: Disk, cards: seq<Card>, c: Card, v: VaultId)
    requires c.vaultId == Some(v) && Restoring(base, d, cards, c, v)
    ensures OneShown(d.marks, c, {}) ==
            if FailedMark(d.marks, v).None? then [c]
            else match CardOf(cards, c.userHash) case None => [] case Some(replaced) => [replaced]
  {
  }

  lemma {:induction false} ReplacedLoaded(m: Marks, m': Marks, cards: seq<Card>, c: Card, middle: Card)
    requires forall x :: x in cards ==> OneShown(m', x, {}) == OneShown(m, x, {})
    requires OneShown(m', c, {}) == [middle] && middle.userHash == c.userHash
    ensures Loaded(m', Replaced(cards, c), {}) == InPlace(m, cards, middle)
  {
    if cards != [] {
      var n, r := |cards| - 1, Replaced(cards, c);
      ReplacedLoaded(m, m', cards[..n], c, middle);
      assert r[..n] == Replaced(cards[..n], c) && r[n] == if cards[n].userHash == c.userHash then c else cards[n];
      assert cards[n] in cards && OneShown(m', cards[n], {}) == OneShown(m, cards[n], {});
      assert Loaded(m', r, {}) == Loaded(m', r[..n], {}) + OneShown(m', r[n], {});
    }
  }

  /** What is shown at any moment of a restore, whatever its loading could read. */
  lemma {:induction false} ShownWhileRestoring(base: Disk, d: Disk, cards: seq<Card>, c: Card, v: VaultId)
    requires Fresh(base, v) && !Names(cards, v) && c.vaultId == Some(v) && Restoring(base, d, cards, c, v)
    ensures Shown(d) == ShownAfter(base, d, cards, c, v)
  {
    LoadedLikewise(base, d, cards, c, v, cards);
    if d.registry == Some(WithCard(cards, c)) {
      CardShown(base, d, cards, c, v);
      var loaded := CardOf(cards, c.userHash);
      if loaded.Some? {
        ReplacedLoaded(base.marks, d.marks, cards, c, if FailedMark(d.marks, v).Some? then loaded.value else c);
      } else {
        LoadedAppend(d.marks, cards, [c], {});
        LoadedOne(d.marks, c, {});
      }
    } else if d.registry == base.registry {
      LoadedLikewise(base, d, cards, c, v, Cards(base));
    }
  }

  /** The registry names the new card, and no mark says that its restore failed. */
  predicate Unmarked(d: Disk, cards: seq<Card>, c: Card, v: VaultId) {
    d.registry == Some(WithCard(cards, c)) && FailedMark(d.marks, v).None?
  }

  lemma {:induction false} InPlaceMembers(m: Marks, cards: seq<Card>, middle: Card, y: Card)
    requires MarksMatch(m)
    ensures y in InPlace(m, cards, middle) <==>
            (y == middle && CardOf(cards, middle.userHash).Some?) || (y.userHash != middle.userHash && y in Loaded(m, cards, {}))
  {
    if cards != [] {
      var front, last := cards[..|cards| - 1], cards[|cards| - 1];
      InPlaceMembers(m, front, middle, y);
      OneShownUser(m, last);
      CardOfSnoc(cards, middle.userHash);
    }
  }

  lemma {:induction false} OneShownUser(m: Marks, x: Card)
    requires MarksMatch(m)
    ensures forall y :: y in OneShown(m, x, {}) ==> y.userHash == x.userHash
  {
    if MarkedFailed(m, x) {
      assert x.vaultId.value in m.leftover || x.vaultId.value in m.pending;
    }
  }

  lemma {:induction false} CardOfSnoc(cards: seq<Card>, u: UserHash)
    requires cards != []
    ensures CardOf(cards, u).Some? <==> CardOf(cards[..|cards| - 1], u).Some? || cards[|cards| - 1].userHash == u
  {
    var front := cards[..|cards| - 1];
    if CardOf(cards, u).Some? {
      var i :| 0 <= i < |cards| && cards[i] == CardOf(cards, u).value;
      assert i < |front| ==> front[i] == cards[i];
    }
    if CardOf(front, u).Some? {
      var i :| 0 <= i < |front| && front[i] == CardOf(front, u).value;
      assert cards[i] == front[i];
    }
  }

  /** Nothing that is loaded names the new vault. */
  lemma {:induction false} NoneNamesFresh(base: Disk, cards: seq<Card>, v: VaultId, y: Card)
    requires Fresh(base, v) && !Names(cards, v) && (y in Loaded(base.marks, cards, {}) || y in Shown(base) || y in cards)
    ensures y.vaultId != Some(v)
  {
    if y in Loaded(base.marks, cards, {}) {
      LoadedNotNaming(base, cards, {}, v, y);
    } else if y in Shown(base) {
      LoadedNeverFresh(base, {}, v, y);
    } else {
      var i :| 0 <= i < |cards| && cards[i] == y;
    }
  }

  /** During a restore the new card is shown exactly while the registry names it and no mark says it failed. */
  lemma {:induction false} RestoredShownIff(base: Disk, d: Disk, cards: seq<Card>, c: Card, v: VaultId)
    requires MarksMatch(base.marks) && Fresh(base, v) && !Names(cards, v) && c.vaultId == Some(v)
    requires Restoring(base, d, cards, c, v)
    ensures c in Shown(d) <==> Unmarked(d, cards, c, v)
  {
    ShownWhileRestoring(base, d, cards, c, v);
    if c in Loaded(base.marks, cards, {}) || c in Shown(base) || c in cards {
      NoneNamesFresh(base, cards, v, c);
    }
    var loaded := CardOf(cards, c.userHash);
    if loaded.Some? {
      InPlaceMembers(base.marks, cards, c, c);
      InPlaceMembers(base.marks, cards, loaded.value, c);
    }
  }

  /** Of a card that names another vault than the new one. */
  lemma {:induction false} ShownOther(base: Disk, d: Disk, cards: seq<Card>, c: Card, v: VaultId, y: Card)
    requires MarksSane(base.marks) && Fresh(base, v) && !Names(cards, v) && c.vaultId == Some(v)
    requires Restoring(base, d, cards, c, v) && y in Shown(d) && MarkedFailed(d.marks, y)
    ensures d.registry == Some(WithCard(cards, c)) && FailedMark(d.marks, v).Some? && CardOf(cards, c.userHash) == Some(y)
    ensures MarkedFailed(base.marks, y)
  {
    ShownWhileRestoring(base, d, cards, c, v);
    var loaded := CardOf(cards, c.userHash);
    if loaded.Some? {
      InPlaceMembers(base.marks, cards, c, y);
      InPlaceMembers(base.marks, cards, loaded.value, y);
    }
    if y != c {
      NoneNamesFresh(base, cards, v, y);
      SameFailedMark(base, d, cards, c, v, y);
      ShowsFailedIffUnread(base.marks, cards, {}, y);
      ShowsFailedIffUnread(base.marks, Cards(base), {}, y);
    } else {
      RestoredShownIff(base, d, cards, c, v);
    }
  }

  /** At any moment of a restore, with every mark read now, a card marked failed is shown exactly when the registry names
      the restored card, its restore is marked failed, and the loading had the account's card from a vault whose failed
      mark it could not read. */
  lemma {:induction false} FailedShownIff(base: Disk, d: Disk, load: Option<set<Card>>, c: Card, v: VaultId)
    requires Consistent(base) && MarksSane(base.marks) && Fresh(base, v) && c.vaultId == Some(v)
    requires Restoring(base, d, LoadedCards(base, load), c, v)
    ensures (exists y :: y in Shown(d) && MarkedFailed(d.marks, y)) <==>
            d.registry == Some(WithCard(LoadedCards(base, load), c)) && FailedMark(d.marks, v).Some?
            && PutsBackFailed(base, LoadedCards(base, load), c.userHash)
  {
    var cards := LoadedCards(base, load);
    LoadedFit(base, load, v);
    if y :| y in Shown(d) && MarkedFailed(d.marks, y) {
      ShownOther(base, d, cards, c, v, y);
    }
    if d.registry == Some(WithCard(cards, c)) && FailedMark(d.marks, v).Some? && PutsBackFailed(base, cards, c.userHash) {
      var y := CardOf(cards, c.userHash).value;
      ShownWhileRestoring(base, d, cards, c, v);
      InPlaceMembers(base.marks, cards, y, y);
      CardOfUnnamed(cards, c.userHash, v);
      SameFailedMark(base, d, cards, c, v, y);
    }
  }

  lemma {:induction false} InPlaceOfUnmarked(m: Marks, cards: seq<Card>, middle: Card)
    requires forall x :: x in cards ==> !MarkedFailed(m, x)
    ensures InPlace(m, cards, middle) == Replaced(cards, middle)
  {
    if cards != [] {
      var n := |cards| - 1;
      InPlaceOfUnmarked(m, cards[..n], middle);
      assert cards[n] in cards;
      assert Replaced(cards, middle) == Replaced(cards[..n], middle) + [Replaced(cards, middle)[n]];
    }
  }

  lemma {:induction false} ShownUnfailed(d: Disk)
    requires Consistent(d) && MarksSane(d.marks)
    ensures DistinctUsers(Shown(d)) && forall c :: c in Shown(d) ==> !MarkedFailed(d.marks, c)
  {
    LoadedDistinct(d.marks, Cards(d), {});
    forall c | c in Shown(d)
      ensures !MarkedFailed(d.marks, c)
    {
      NeverShowsFailed(d, c);
    }
  }

  /** With every mark read, the cards of before are shown, or those with the restored one. */
  lemma {:induction false} ShownWhenRead(base: Disk, d: Disk, c: Card, v: VaultId)
    requires Consistent(base) && MarksSane(base.marks) && Fresh(base, v) && c.vaultId == Some(v)
    requires Restoring(base, d, Shown(base), c, v)
    ensures MarksSane(d.marks)
    ensures Shown(d) == if Unmarked(d, Shown(base), c, v) then WithCard(Shown(base), c) else Shown(base)
  {
    var shown := Shown(base);
    LoadedFit(base, Some({}), v);
    ShownUnfailed(base);
    SanityLostIff(base, d, shown, c, v);
    ShownWhileRestoring(base, d, shown, c, v);
    LoadedOfUnmarked(base.marks, shown, {});
    var loaded := CardOf(shown, c.userHash);
    if loaded.Some? {
      InPlaceOfUnmarked(base.marks, shown, c);
      InPlaceOfUnmarked(base.marks, shown, loaded.value);
      ReplacedBack(shown, c, loaded.value);
    }
  }

  lemma {:induction false} SameFailedMark(base: Disk, d: Disk, cards: seq<Card>, c: Card, v: VaultId, x: Card)
    requires Restoring(base, d, cards, c, v) && x.vaultId != Some(v)
    ensures MarkedFailed(d.marks, x) == MarkedFailed(base.marks, x)
    ensures x.vaultId.Some? ==> FailedMark(d.marks, x.vaultId.value) == FailedMark(base.marks, x.vaultId.value)
  {
    if x.vaultId.Some? {
      var w := x.vaultId.value;
      assert w in d.marks.pending <==> w in d.marks.pending - {v};
      assert w in d.marks.leftover <==> w in d.marks.leftover - {v};
    }
  }

  // ---------- the undo ----------

  /** How far an undo came. */
  datatype Undo = Undo(marked: bool, registryBack: bool, clearing: bool, vaultGone: bool, failures: nat)

  /** The steps that mark the vault: as leftover, or else its pending mark as failed. */
  method MarkFailed(em: Device, v: VaultId, mark: RestoreMark) returns (o: Outcome, marked: bool, failures: nat)
    requires v !in em.disk.marks.leftover && !mark.failed
    requires v in em.disk.marks.pending ==> em.disk.marks.pending[v] == mark
    modifies em`disk, em`faults
    ensures !o.Threw?
    ensures em.disk == old(em.disk).(marks := em.disk.marks)
    ensures em.disk.marks == old(em.disk).marks
         || em.disk.marks == old(em.disk).marks.(leftover := old(em.disk).marks.leftover[v := mark])
         || em.disk.marks == old(em.disk).marks.(pending := old(em.disk).marks.pending[v := mark.(failed := true)])
    ensures marked ==> FailedMark(em.disk.marks, v).Some?
    ensures o.Done? && !marked ==> em.disk.marks == old(em.disk).marks
    ensures o.Done? ==> failures >= (if marked then 0 else 2)
    ensures old(em.faults) <= em.faults && (em.faults == old(em.faults) ==> o.Done? && marked && failures == 0)
  {
    marked, failures := false, 0;
    o := em.Write(em.disk.(marks := em.disk.marks.(leftover := em.disk.marks.leftover[v := mark])));
    if o.Crashed? { return; }
    if o.Done? { return Done, true, 0; }
    failures := 1;
    o := em.Write(em.disk.(marks := em.disk.marks.(pending := em.disk.marks.pending[v := mark.(failed := true)])));
    if o.Crashed? { return; }
    if o.Done? { return Done, true, 1; }
    return Done, false, 2;
  }

  method DropBothMarks(em: Device, v: VaultId) returns (o: Outcome)
    modifies em`disk, em`faults
    ensures em.disk == old(em.disk).(marks := em.disk.marks)
    ensures em.disk.marks.pending in {old(em.disk).marks.pending, old(em.disk).marks.pending - {v}}
    ensures em.disk.marks.leftover in {old(em.disk).marks.leftover, old(em.disk).marks.leftover - {v}}
    ensures o.Done? ==> em.disk.marks == Marks(old(em.disk).marks.pending - {v}, old(em.disk).marks.leftover - {v})
    ensures old(em.faults) <= em.faults && (em.faults == old(em.faults) ==> o.Done?)
  {
    o := em.Write(em.disk.(marks := em.disk.marks.(leftover := em.disk.marks.leftover - {v})));
    if !o.Done? { return; }
    o := em.Write(em.disk.(marks := em.disk.marks.(pending := em.disk.marks.pending - {v})));
  }

  lemma {:induction false} ClearingRestoring(base: Disk, d: Disk, d': Disk, cards: seq<Card>, c: Card, v: VaultId)
    requires Restoring(base, d, cards, c, v) && ClearedPart(d, d', {v})
    ensures Restoring(base, d', cards, c, v)
  {
    assert d'.vaults - {v} == d.vaults - {v} && d'.locks - {v} == d.locks - {v} && d'.owners - {v} == d.owners - {v};
  }

  lemma {:induction false} UndoneIsBase(base: Disk, d: Disk, cards: seq<Card>, c: Card, v: VaultId)
    requires Fresh(base, v) && Restoring(base, d, cards, c, v) && Gone(d, v) && d.registry == Some(cards)
    requires v !in d.marks.pending && v !in d.marks.leftover
    ensures d == base.(registry := Some(cards))
  {
    assert d.vaults - {v} == d.vaults && d.locks - {v} == d.locks && d.owners - {v} == d.owners;
    assert base.vaults - {v} == base.vaults && base.locks - {v} == base.locks && base.owners - {v} == base.owners;
    assert d.marks.pending - {v} == d.marks.pending && d.marks.leftover - {v} == d.marks.leftover;
  }

  lemma {:induction false} DroppingRestoring(base: Disk, d: Disk, d': Disk, cards: seq<Card>, c: Card, v: VaultId)
    requires Fresh(base, v) && Restoring(base, d, cards, c, v) && d' == d.(marks := d'.marks)
    requires d'.marks.pending == d.marks.pending || d'.marks.pending == d.marks.pending - {v}
    requires d'.marks.leftover == d.marks.leftover || d'.marks.leftover == d.marks.leftover - {v}
    ensures Restoring(base, d', cards, c, v)
  {
    assert (d.marks.pending - {v}) - {v} == d.marks.pending - {v};
    assert (d.marks.leftover - {v}) - {v} == d.marks.leftover - {v};
  }

  lemma {:induction false} WithCardDiffers(cards: seq<Card>, c: Card, v: VaultId)
    requires !Names(cards, v) && c.vaultId == Some(v)
    ensures WithCard(cards, c) != cards
  {
    if CardOf(cards, c.userHash).Some? {
      var i :| 0 <= i < |cards| && cards[i] == CardOf(cards, c.userHash).value;
      assert Replaced(cards, c)[i] == c;
    }
  }

  /** Putting the account entry back. */
  method WriteBack(em: Device, c: Card, replaced: Option<Card>, ghost cards: seq<Card>) returns (o: Outcome)
    requires DistinctUsers(cards) && replaced == CardOf(cards, c.userHash)
    requires em.localUserCards == cards || em.localUserCards == WithCard(cards, c)
    modifies em`disk, em`localUserCards, em`faults
    ensures em.disk == old(em.disk) || em.disk == old(em.disk).(registry := Some(cards))
    ensures o.Done? ==> em.disk.registry == Some(cards) && em.localUserCards == cards
    ensures o.Threw? ==> em.disk == old(em.disk)
    ensures old(em.faults) <= em.faults && (em.faults == old(em.faults) ==> o.Done?)
  {
    PutBackUndoes(cards, c);
    var back := PutBack(em.localUserCards, c.userHash, replaced);
    o := em.Write(em.disk.(registry := Some(back)));
    if o.Done? { em.localUserCards := back; }
  }

  /** The clearing steps: the vault, and after it, once the registry is back, the marks. */
  method ClearRestored(em: Device, c: Card, v: VaultId, registryBack: bool, ghost base: Disk, ghost cards: seq<Card>)
    returns (o: Outcome, vaultGone: bool, failures: nat)
    requires Fresh(base, v) && Restoring(base, em.disk, cards, c, v)
    requires registryBack ==> em.disk.registry == Some(cards)
    modifies em`disk, em`currentVault, em`faults
    ensures !o.Threw? && Restoring(base, em.disk, cards, c, v) && em.disk.registry == old(em.disk).registry
    ensures !(registryBack && vaultGone) ==> em.disk.marks == old(em.disk).marks
    ensures vaultGone ==> Gone(em.disk, v)
    ensures o.Done? && !vaultGone ==> failures > 0
    ensures o.Done? && registryBack && failures == 0 ==> em.disk == base.(registry := Some(cards))
    ensures old(em.faults) <= em.faults && (em.faults == old(em.faults) ==> o.Done? && vaultGone && failures == 0)
  {
    vaultGone, failures := false, 0;
    ghost var before := em.disk;
    o := em.ClearAccountVault(v);
    ClearingRestoring(base, before, em.disk, cards, c, v);
    if o.Crashed? { return; }
    if o.Threw? { return Done, false, 1; }
    vaultGone := true;
    if !registryBack { return; }
    before := em.disk;
    o := DropBothMarks(em, v);
    DroppingRestoring(base, before, em.disk, cards, c, v);
    if o.Crashed? { return; }
    if o.Threw? { return Done, true, 1; }
    UndoneIsBase(base, em.disk, cards, c, v);
  }

  lemma {:induction false} MarkingRestoring(base: Disk, d: Disk, marks: Marks, cards: seq<Card>, c: Card, v: VaultId)
    requires Restoring(base, d, cards, c, v)
    requires var mark := RestoreMark(c.userHash, CardOf(cards, c.userHash), false);
             || marks == d.marks
             || marks == d.marks.(leftover := d.marks.leftover[v := mark])
             || marks == d.marks.(pending := d.marks.pending[v := mark.(failed := true)])
    ensures Restoring(base, d.(marks := marks), cards, c, v)
  {
    assert marks.pending - {v} == d.marks.pending - {v};
    assert marks.leftover - {v} == d.marks.leftover - {v};
  }

  lemma {:induction false} WritingBackRestoring(base: Disk, d: Disk, cards: seq<Card>, c: Card, v: VaultId)
    requires Restoring(base, d, cards, c, v)
    ensures Restoring(base, d.(registry := Some(cards)), cards, c, v)
  {
  }

  /** The undo's steps before clearing: the marks, and the registry. */
  method MarkAndPutBack(em: Device, c: Card, v: VaultId, replaced: Option<Card>, ghost base: Disk, ghost cards: seq<Card>)
    returns (o: Outcome, undo: Undo)
    requires DistinctUsers(cards) && !Names(cards, v) && Fresh(base, v) && c.vaultId == Some(v)
    requires Restoring(base, em.disk, cards, c, v)
    requires em.localUserCards == cards || em.localUserCards == WithCard(cards, c)
    requires FailedMark(em.disk.marks, v).None? && replaced == CardOf(cards, c.userHash)
    modifies em`disk, em`localUserCards, em`faults
    ensures !o.Threw? && Restoring(base, em.disk, cards, c, v)
    ensures em.disk.vaults == old(em.disk).vaults && em.disk.locks == old(em.disk).locks
    ensures undo.registryBack ==> em.disk.registry == Some(cards) && em.localUserCards == cards
    ensures o.Done? && !undo.registryBack ==> em.disk.registry == old(em.disk).registry
    ensures o.Done? ==> undo.failures >= (if undo.marked then 0 else 2) + (if undo.registryBack then 0 else 1)
    ensures em.disk.registry in {old(em.disk).registry, Some(cards)}
    ensures undo.marked ==> FailedMark(em.disk.marks, v).Some?
    ensures o.Done? && !undo.marked ==> em.disk.marks == old(em.disk).marks
    ensures o.Done? == undo.clearing && !undo.vaultGone
    ensures old(em.faults) <= em.faults
    ensures em.faults == old(em.faults) ==> o.Done? && undo.marked && undo.registryBack && undo.failures == 0
  {
    undo := Undo(false, false, false, false, 0);
    var marked, failures;
    ghost var before := em.disk;
    o, marked, failures := MarkFailed(em, v, RestoreMark(c.userHash, replaced, false));
    MarkingRestoring(base, before, em.disk.marks, cards, c, v);
    assert Restoring(base, em.disk, cards, c, v) == true;
    if o.Crashed? { return; }
    WritingBackRestoring(base, em.disk, cards, c, v);
    undo := Undo(marked, false, false, false, failures);
    o := WriteBack(em, c, replaced, cards);
    assert Restoring(base, em.disk, cards, c, v) == true;
    if o.Crashed? { return; }
    undo := Undo(marked, o.Done?, true, false, failures + if o.Done? then 0 else 1);
    o := Done;
  }

  /**
   * What #restoreUndoer returns. The card of the failed restore stays shown, over a vault that is then cleared,
   * exactly when neither mark nor the old registry could be written; without a failed step the disk is as it was.
   */
  method UndoRestore(em: Device, c: Card, v: VaultId, replaced: Option<Card>, ghost base: Disk, ghost cards: seq<Card>)
    returns (o: Outcome, undo: Undo)
    requires DistinctUsers(cards) && !Names(cards, v) && Fresh(base, v) && c.vaultId == Some(v)
    requires Restoring(base, em.disk, cards, c, v)
    requires em.localUserCards == cards || em.localUserCards == WithCard(cards, c)
    requires FailedMark(em.disk.marks, v).None? && replaced == CardOf(cards, c.userHash)
    modifies em
    ensures !o.Threw? && Restoring(base, em.disk, cards, c, v)
    ensures Unmarked(em.disk, cards, c, v) ==> old(Unmarked(em.disk, cards, c, v)) && !undo.marked && !undo.registryBack
    ensures o.Done? && old(Unmarked(em.disk, cards, c, v)) && !undo.marked && !undo.registryBack ==> Unmarked(em.disk, cards, c, v)
    ensures !undo.clearing ==> em.disk.vaults == old(em.disk).vaults && em.disk.locks == old(em.disk).locks
    ensures undo.registryBack ==> em.disk.registry == Some(cards) && em.localUserCards == cards
    ensures undo.vaultGone ==> Gone(em.disk, v)
    ensures undo.marked && !(undo.registryBack && undo.vaultGone) ==> FailedMark(em.disk.marks, v).Some?
    ensures o.Done? ==> undo.clearing
    ensures o.Done? ==>
              undo.failures >= (if undo.marked then 0 else 2) + (if undo.registryBack then 0 else 1) + (if undo.vaultGone then 0 else 1)
    ensures o.Done? && undo.failures == 0 ==> em.disk == base.(registry := Some(cards)) && em.localUserCards == cards
    ensures old(em.faults) <= em.faults && (em.faults == old(em.faults) ==> o.Done? && undo.failures == 0)
  {
    WithCardDiffers(cards, c, v);
    o, undo := MarkAndPutBack(em, c, v, replaced, base, cards);
    if o.Crashed? { return; }
    var gone, failures;
    o, gone, failures := ClearRestored(em, c, v, undo.registryBack, base, cards);
    undo := undo.(vaultGone := gone, failures := undo.failures + failures);
  }

  // ---------- the import ----------

  lemma {:induction false} VaultSetRestoring(base: Disk, d: Disk, vaults: map<VaultId, Vault>, cards: seq<Card>, c: Card, v: VaultId)
    requires Restoring(base, d, cards, c, v) && vaults - {v} == d.vaults - {v}
    ensures Restoring(base, d.(vaults := vaults), cards, c, v)
  {
  }

  method SetInVault(em: Device, v: VaultId, name: JsString, value: JsString) returns (o: Outcome)
    requires v in em.disk.vaults
    modifies em`disk, em`faults
    ensures v in em.disk.vaults && em.disk == old(em.disk).(vaults := em.disk.vaults)
    ensures em.disk.vaults - {v} == old(em.disk).vaults - {v}
    ensures o.Done? ==> em.disk.vaults[v] == old(em.disk).vaults[v][name := value]
    ensures old(em.faults) <= em.faults && (em.faults == old(em.faults) ==> o.Done?)
  {
    o := em.Write(em.disk.(vaults := em.disk.vaults[v := em.disk.vaults[v][name := value]]));
  }

  lemma {:induction false} KeyNamesDiffer()
    ensures Ascii("meta_seed") != Ascii("sign_skey")
  {
    assert Ascii("meta_seed")[0] == 'm' as int && Ascii("sign_skey")[0] == 's' as int;
  }

  /** The vault's part of #writeImportedAccount, and nothing else. */
  method WriteKeys(em: Device, v: VaultId, keys: Keys) returns (o: Outcome)
    requires v in em.disk.vaults && v in em.disk.locks
    modifies em`disk, em`faults
    ensures em.disk == old(em.disk).(vaults := em.disk.vaults) && em.disk.vaults - {v} == old(em.disk).vaults - {v}
    ensures o.Done? ==> HoldsKeys(em.disk, v, keys)
    ensures old(em.faults) <= em.faults && (em.faults == old(em.faults) ==> o.Done?)
  {
    KeyNamesDiffer();
    o := SetInVault(em, v, Ascii("sign_skey"), keys.sign);
    if !o.Done? { return; }
    o := SetInVault(em, v, Ascii("crypt_skey"), keys.crypt);
    if !o.Done? { return; }
    o := SetInVault(em, v, Ascii("evm_skey"), keys.evm);
    if !o.Done? { return; }
    o := SetInVault(em, v, Ascii("contact_skey"), keys.contact);
    if !o.Done? { return; }
    if keys.metaSeed.Some? {
      o := SetInVault(em, v, Ascii("meta_seed"), keys.metaSeed.value);
    }
  }

  lemma {:induction false} SavingRestoring(base: Disk, d: Disk, cards: seq<Card>, c: Card, v: VaultId)
    requires Restoring(base, d, cards, c, v)
    ensures Restoring(base, d.(registry := Some(WithCard(cards, c))), cards, c, v)
  {
  }

  lemma {:induction false} OwningRestoring(base: Disk, d: Disk, cards: seq<Card>, c: Card, v: VaultId)
    requires Restoring(base, d, cards, c, v)
    ensures Restoring(base, d.(owners := d.owners[v := c.userHash]), cards, c, v)
  {
    assert d.owners[v := c.userHash] - {v} == d.owners - {v};
  }

  /** The rest of #writeImportedAccount: the card, a registry write whose failure is swallowed, the owner, the session. */
  method WriteCard(em: Device, c: Card, v: VaultId, ghost base: Disk, ghost cards: seq<Card>) returns (o: Outcome, ghost saved: bool)
    requires Restoring(base, em.disk, cards, c, v) && em.localUserCards == cards
    modifies em
    ensures Restoring(base, em.disk, cards, c, v)
    ensures em.disk.vaults == old(em.disk).vaults && em.disk.locks == old(em.disk).locks && em.disk.marks == old(em.disk).marks
    ensures em.localUserCards == WithCard(cards, c)
    ensures saved ==> em.disk.registry == Some(WithCard(cards, c))
    ensures !saved && !o.Crashed? ==> em.disk.registry == old(em.disk).registry
    ensures o.Done? ==> em.currentVault == Some(v) && v in em.disk.owners && em.disk.owners[v] == c.userHash
    ensures old(em.faults) <= em.faults && (em.faults == old(em.faults) ==> o.Done? && saved)
  {
    em.localUserCards := WithCard(em.localUserCards, c);
    SavingRestoring(base, em.disk, cards, c, v);
    o := em.Write(em.disk.(registry := Some(em.localUserCards)));
    assert Restoring(base, em.disk, cards, c, v) == true;
    saved := o.Done?;
    if o.Crashed? { return; }
    OwningRestoring(base, em.disk, cards, c, v);
    o := em.Write(em.disk.(owners := em.disk.owners[v := c.userHash]));
    assert Restoring(base, em.disk, cards, c, v) == true;
    if !o.Done? { return; }
    o := em.Step();
    if o.Done? { em.currentVault := Some(v); }
  }

  lemma {:induction false} FreshIsUnnamed(base: Disk, cards: seq<Card>, c: Card, v: VaultId)
    requires Fresh(base, v) && c.vaultId == Some(v)
    ensures base.registry != Some(WithCard(cards, c))
  {
    WithCardHas(cards, c);
  }

  /** Everything between drawing the id and the answer; an error anywhere is followed by the undo. */
  method WriteImportedAccount(em: Device, c: Card, v: VaultId, keys: Keys, ghost base: Disk, ghost cards: seq<Card>)
    returns (o: Outcome, ghost saved: bool)
    requires DistinctUsers(cards) && Fresh(base, v) && c.vaultId == Some(v)
    requires Restoring(base, em.disk, cards, c, v) && em.localUserCards == cards && em.disk.registry == base.registry
    requires v in em.disk.vaults && v in em.disk.locks && em.disk.marks == base.marks
    modifies em
    ensures Restoring(base, em.disk, cards, c, v) && FailedMark(em.disk.marks, v).None?
    ensures em.localUserCards == cards || em.localUserCards == WithCard(cards, c)
    ensures em.disk.registry != base.registry || o.Done? ==> HoldsKeys(em.disk, v, keys)
    ensures saved ==> em.disk.registry == Some(WithCard(cards, c))
    ensures !saved && !o.Crashed? ==> em.disk.registry == base.registry
    ensures !o.Crashed? ==> (Unmarked(em.disk, cards, c, v) <==> saved)
    ensures o.Done? ==> v in em.disk.marks.pending && em.currentVault == Some(v) && em.localUserCards == WithCard(cards, c)
    ensures em.disk.locks == old(em.disk).locks && (o.Done? ==> v in em.disk.owners && em.disk.owners[v] == c.userHash)
    ensures old(em.faults) <= em.faults && (em.faults == old(em.faults) ==> o.Done? && saved)
  {
    saved := false;
    FreshIsUnnamed(base, cards, c, v);
    var mark := RestoreMark(c.userHash, CardOf(em.localUserCards, c.userHash), false);
    assert base.marks.pending[v := mark] - {v} == base.marks.pending - {v};
    assert base.marks.pending - {v} == base.marks.pending;
    o := em.Write(em.disk.(marks := em.disk.marks.(pending := em.disk.marks.pending[v := mark])));
    assert Restoring(base, em.disk, cards, c, v) == true;
    if !o.Done? { return; }
    ghost var before := em.disk;
    o := WriteKeys(em, v, keys);
    VaultSetRestoring(base, before, em.disk.vaults, cards, c, v);
    if !o.Done? { return; }
    o, saved := WriteCard(em, c, v, base, cards);
  }

  /** What an import did, for its contract: the cards its clearing loaded, the disk that left, what its own loading
      could read and the cards that gave, whether the new card was written, and the undo. */
  datatype Run = Run(cleared: Option<set<Card>>, base: Disk, load: Option<set<Card>>, cards: seq<Card>, clean: bool, saved: bool, undo: Option<Undo>)

  /** The account has a card among these, on a vault that is present. */
  predicate Held(cards: seq<Card>, vaults: set<VaultId>, u: UserHash) {
    VaultOf(cards, u).Some? && VaultOf(cards, u).value in vaults
  }

  /** The account has a loaded card on a vault that is present. */
  predicate AlreadyHere(run: Run, u: UserHash) {
    Held(run.cards, run.base.vaults.Keys, u)
  }

  /** The protocol's part of the contract, in terms of what is on disk. */
  ghost predicate RunOutcome(d: Disk, o: Outcome, run: Run, c: Card, v: VaultId, keys: Keys) {
    && Fresh(run.base, v) && Restoring(run.base, d, run.cards, c, v)
    && (run.undo.None? && d.registry != run.base.registry ==> HoldsKeys(d, v, keys))
    && (run.undo.None? ==> FailedMark(d.marks, v).None?)
    && (Unmarked(d, run.cards, c, v) && !HoldsKeys(d, v, keys) ==>
          run.undo.Some? && run.undo.value.clearing && !run.undo.value.marked && !run.undo.value.registryBack)
    && (o.Threw? && run.undo.None? ==> !Unmarked(d, run.cards, c, v))
    && (o.Threw? && run.undo.Some? ==>
          (Unmarked(d, run.cards, c, v) <==> run.saved && !run.undo.value.marked && !run.undo.value.registryBack))
    && (o.Threw? && run.undo.Some? && run.undo.value.failures == 0 ==> d == run.base.(registry := Some(run.cards)))
    && (o.Done? ==> HoldsKeys(d, v, keys) && run.undo.None?)
    && (o.Done? ==> (Unmarked(d, run.cards, c, v) <==> run.saved))
  }

  lemma {:induction false} NothingRestored(base: Disk, o: Outcome, run: Run, c: Card, v: VaultId, keys: Keys)
    requires Fresh(base, v) && run.base == base && c.vaultId == Some(v) && run.undo.None? && !o.Done?
    ensures RunOutcome(base, o, run, c, v, keys)
  {
    assert base.marks.pending - {v} == base.marks.pending && base.marks.leftover - {v} == base.marks.leftover;
    FreshIsUnnamed(base, run.cards, c, v);
  }

  lemma {:induction false} WithCardHas(cards: seq<Card>, c: Card)
    ensures c in WithCard(cards, c)
  {
    if CardOf(cards, c.userHash).Some? {
      var i :| 0 <= i < |cards| && cards[i] == CardOf(cards, c.userHash).value;
      assert Replaced(cards, c)[i] == c;
    }
  }

  /** An error after the marks: the undo, then the error. */
  method FailRestore(em: Device, c: Card, v: VaultId, keys: Keys, replaced: Option<Card>, ghost run: Run)
    returns (o: Outcome, ghost ended: Run)
    requires DistinctUsers(run.cards) && !Names(run.cards, v) && Fresh(run.base, v) && c.vaultId == Some(v)
    requires Restoring(run.base, em.disk, run.cards, c, v) && FailedMark(em.disk.marks, v).None?
    requires em.localUserCards == run.cards || em.localUserCards == WithCard(run.cards, c)
    requires replaced == CardOf(run.cards, c.userHash)
    requires Unmarked(em.disk, run.cards, c, v) ==> HoldsKeys(em.disk, v, keys)
    requires Unmarked(em.disk, run.cards, c, v) <==> run.saved
    modifies em
    ensures !o.Done? && ended == run.(undo := ended.undo)
    ensures RunOutcome(em.disk, o, ended, c, v, keys)
    ensures old(em.faults) <= em.faults
  {
    var undo;
    o, undo := UndoRestore(em, c, v, replaced, run.base, run.cards);
    ended := run.(undo := Some(undo));
    if o.Done? { o := Threw; }
  }

  /** Making the vault: its row, then its lock; no mark is on disk yet. */
  method NewVault(em: Device, v: VaultId, credential: JsString) returns (o: Outcome)
    modifies em`disk, em`faults
    ensures em.disk == old(em.disk).(vaults := em.disk.vaults, locks := em.disk.locks)
    ensures em.disk.vaults - {v} == old(em.disk).vaults - {v} && em.disk.locks - {v} == old(em.disk).locks - {v}
    ensures o.Done? ==> v in em.disk.vaults && v in em.disk.locks && em.disk.locks[v] == credential
    ensures old(em.faults) <= em.faults && (em.faults == old(em.faults) ==> o.Done?)
  {
    o := em.Write(em.disk.(vaults := em.disk.vaults[v := map[]]));
    if !o.Done? { return; }
    o := em.Write(em.disk.(locks := em.disk.locks[v := credential]));
  }

  lemma {:induction false} NewVaultRestoring(base: Disk, d: Disk, o: Outcome, run: Run, c: Card, v: VaultId, keys: Keys)
    requires Fresh(base, v) && run.base == base && c.vaultId == Some(v) && run.undo.None? && !o.Done?
    requires d == base.(vaults := d.vaults, locks := d.locks) && d.vaults - {v} == base.vaults - {v} && d.locks - {v} == base.locks - {v}
    ensures Restoring(base, d, run.cards, c, v) && RunOutcome(d, o, run, c, v, keys)
  {
    NothingRestored(base, o, run, c, v, keys);
    assert Unmarked(d, run.cards, c, v) == Unmarked(base, run.cards, c, v);
  }

  /** The accepted restore's mark goes, if it can. */
  method FinishRestore(em: Device, c: Card, v: VaultId, keys: Keys, ghost run: Run) returns (o: Outcome)
    requires Fresh(run.base, v) && Restoring(run.base, em.disk, run.cards, c, v) && c.vaultId == Some(v)
    requires FailedMark(em.disk.marks, v).None? && HoldsKeys(em.disk, v, keys) && run.undo.None?
    requires Unmarked(em.disk, run.cards, c, v) <==> run.saved
    modifies em`disk, em`currentVault, em`faults
    ensures RunOutcome(em.disk, o, run, c, v, keys) && !o.Threw?
    ensures em.disk.locks == old(em.disk).locks && em.disk.owners == old(em.disk).owners
    ensures old(em.faults) <= em.faults && (em.faults == old(em.faults) ==> o.Done?)
  {
    ghost var before := em.disk;
    o := em.Write(em.disk.(marks := em.disk.marks.(pending := em.disk.marks.pending - {v})));
    DroppingRestoring(run.base, before, em.disk, run.cards, c, v);
    if o.Crashed? { return; }
    o := Done;
    if * { em.currentVault := None; }
  }

  /** From the new vault to the answer. */
  method RestoreIntoNewVault(em: Device, c: Card, v: VaultId, keys: Keys, credential: JsString, ghost started: Run)
    returns (o: Outcome, ghost run: Run)
    requires DistinctUsers(started.cards) && !Names(started.cards, v) && c.vaultId == Some(v)
    requires Fresh(em.disk, v) && em.disk == started.base && em.localUserCards == started.cards
    requires started.undo.None? && !started.saved
    modifies em
    ensures run == started.(saved := run.saved, undo := run.undo)
    ensures RunOutcome(em.disk, o, run, c, v, keys)
    ensures old(em.faults) <= em.faults && (em.faults == old(em.faults) ==> o.Done? && run.saved)
    ensures o.Done? ==> em.localUserCards == WithCard(started.cards, c) && Owned(em.disk, v, c.userHash, credential)
  {
    run := started;
    o := NewVault(em, v, credential);
    NewVaultRestoring(run.base, em.disk, if o.Done? then Threw else o, run, c, v, keys);
    if !o.Done? { return; }
    var replaced := CardOf(em.localUserCards, c.userHash);
    ghost var saved;
    o, saved := WriteImportedAccount(em, c, v, keys, run.base, run.cards);
    run := run.(saved := saved);
    if o.Crashed? { return; }
    if o.Done? {
      // Publishing the card; an error or a deferred card closes the vault again.
      o := em.Step();
      if !o.Done? { em.currentVault := None; }
      if o.Crashed? { return; }
    }
    if o.Threw? {
      o, run := FailRestore(em, c, v, keys, replaced, run);
      return;
    }
    o := FinishRestore(em, c, v, keys, run);
  }

  lemma {:induction false} StillFresh(d0: Disk, d: Disk, load: Option<set<Card>>, current: Option<VaultId>, v: VaultId)
    requires ClearingFrame(d0, d, LoadedCards(d0, load), current) && Fresh(d0, v)
    ensures Fresh(d, v)
  {
    forall c | c in LoadedCards(d0, load)
      ensures c.vaultId != Some(v)
    {
      LoadedNeverFresh(d0, load.value, v, c);
    }
  }

  /** What a restore shows at whatever moment it stops, and when the restored card is shown. */
  ghost predicate RestoreShows(d: Disk, o: Outcome, run: Run, c: Card, v: VaultId, keys: Keys) {
    && Consistent(d) && Shown(d) == ShownAfter(run.base, d, run.cards, c, v)
    && (c in Shown(d) && !HoldsKeys(d, v, keys) ==> run.undo.Some? && !run.undo.value.marked && !run.undo.value.registryBack)
    && (o.Threw? && run.undo.None? ==> c !in Shown(d))
    && (o.Threw? && run.undo.Some? ==>
          (c in Shown(d) <==> run.saved && !run.undo.value.marked && !run.undo.value.registryBack))
    && (o.Done? ==> HoldsKeys(d, v, keys) && (c in Shown(d) <==> run.saved))
  }

  lemma {:induction false} OutcomeShows(d: Disk, o: Outcome, run: Run, c: Card, v: VaultId, keys: Keys)
    requires Consistent(run.base) && run.cards == LoadedCards(run.base, run.load) && c.vaultId == Some(v)
    requires RunOutcome(d, o, run, c, v, keys)
    ensures RestoreShows(d, o, run, c, v, keys)
  {
    LoadedFit(run.base, run.load, v);
    MarksStayMatched(run.base, d, run.cards, c, v);
    WithCardDistinct(run.cards, c);
    ShownWhileRestoring(run.base, d, run.cards, c, v);
    RestoredShownIff(run.base, d, run.cards, c, v);
  }

  /** What is shown of the other cards when everything was read. */
  ghost predicate OnlyRestoredShown(d: Disk, run: Run, c: Card) {
    MarksSane(d.marks) && Shown(d) == if c in Shown(d) then WithCard(Shown(run.base), c) else Shown(run.base)
  }

  lemma {:induction false} ReadShows(d: Disk, o: Outcome, run: Run, c: Card, v: VaultId, keys: Keys)
    requires Consistent(run.base) && MarksSane(run.base.marks) && run.load == Some({}) && run.cards == Shown(run.base)
    requires c.vaultId == Some(v) && RunOutcome(d, o, run, c, v, keys)
    ensures OnlyRestoredShown(d, run, c)
  {
    LoadedFit(run.base, run.load, v);
    ShownWhenRead(run.base, d, c, v);
    RestoredShownIff(run.base, d, run.cards, c, v);
  }

  lemma {:induction false} EndShows(d: Disk, o: Outcome, run: Run, c: Card, v: VaultId, keys: Keys)
    requires Consistent(run.base) && run.cards == LoadedCards(run.base, run.load) && c.vaultId == Some(v)
    requires RunOutcome(d, o, run, c, v, keys)
    ensures RestoreShows(d, o, run, c, v, keys)
    ensures MarksSane(run.base.marks) && run.load == Some({}) ==> OnlyRestoredShown(d, run, c)
  {
    OutcomeShows(d, o, run, c, v, keys);
    if MarksSane(run.base.marks) && run.load == Some({}) {
      ReadShows(d, o, run, c, v, keys);
    }
  }

  /**
   * #importVaultKeys with a lock of its own, under the restore lock. At any moment the disk is one that the restore
   * makes of the cards it loaded, on the disk that the clearing left, and what it shows follows from what was loaded. The
   * restored card is shown only over a vault that holds every key, unless the undo could write neither mark nor registry;
   * after success exactly when the registry write, whose failure is ignored, was done. When every read succeeds (clean),
   * and no mark puts back a failed card, the other cards shown are those of before.
   */
  method ImportVaultKeys(em: Device, u: UserHash, name: JsString, keys: Keys, v: VaultId, credential: JsString)
    returns (o: Outcome, ghost run: Run)
    requires Consistent(em.disk) && Fresh(em.disk, v)
    modifies em
    ensures Consistent(run.base) && (MarksSane(old(em.disk).marks) ==> MarksSane(run.base.marks))
    ensures ClearingFrame(old(em.disk), run.base, LoadedCards(old(em.disk), run.cleared), old(em.currentVault))
    ensures run.cards == LoadedCards(run.base, run.load)
    ensures AlreadyHere(run, u) ==> em.disk == run.base && !o.Done?
    ensures RunOutcome(em.disk, o, run, Card(u, name, Some(v)), v, keys)
    ensures RestoreShows(em.disk, o, run, Card(u, name, Some(v)), v, keys)
    ensures run.clean ==> run.cleared == run.load == Some({})
    ensures run.clean && MarksSane(old(em.disk).marks) ==>
              Shown(run.base) == Shown(old(em.disk)) && OnlyRestoredShown(em.disk, run, Card(u, name, Some(v)))
    ensures o.Done? ==> Owned(em.disk, v, u, credential)
    // a backup that lacks a key is refused; when no step fails, any other is restored unless the account is already here
    ensures keys.evm == [] || keys.contact == [] ==> o.Threw? && em.disk == old(em.disk)
    ensures em.faults == old(em.faults) && keys.evm != [] && keys.contact != [] ==>
              run.clean && if AlreadyHere(run, u) then o.Threw? else o.Done? && run.saved
  {
    var c := Card(u, name, Some(v));
    ghost var d0 := em.disk;
    run := Run(Some({}), d0, Some({}), Shown(d0), true, false, None);
    NothingDone(run, c, v, keys);
    if keys.evm == [] || keys.contact == [] { return Threw, run; }
    o := em.Step();
    if !o.Done? { return; }
    ghost var cleared, ids, unread, faulted;
    var left;
    o, left, cleared, ids, unread, faulted := ClearRestoreLeftovers(em);
    StillFresh(d0, em.disk, cleared, em.currentVault, v);
    run := Run(cleared, em.disk, Some({}), Shown(em.disk), cleared == Some({}) && unread == {}, false, None);
    NothingDone(run, c, v, keys);
    if o.Crashed? { return; }
    o, run := RestoreOnto(em, c, v, keys, credential, run);
  }

  lemma {:induction false} NothingDone(run: Run, c: Card, v: VaultId, keys: Keys)
    requires Consistent(run.base) && Fresh(run.base, v) && c.vaultId == Some(v) && run.undo.None?
    requires run.cards == LoadedCards(run.base, run.load)
    ensures RunOutcome(run.base, Threw, run, c, v, keys) && RunOutcome(run.base, Crashed, run, c, v, keys)
    ensures RestoreShows(run.base, Threw, run, c, v, keys) && RestoreShows(run.base, Crashed, run, c, v, keys)
    ensures MarksSane(run.base.marks) && run.load == Some({}) ==> OnlyRestoredShown(run.base, run, c)
  {
    NothingRestored(run.base, Threw, run, c, v, keys);
    NothingRestored(run.base, Crashed, run, c, v, keys);
    EndShows(run.base, Threw, run, c, v, keys);
    EndShows(run.base, Crashed, run, c, v, keys);
  }

  /** An account that is already here is refused. */
  method RefuseExisting(em: Device, u: UserHash) returns (o: Outcome)
    modifies em`faults
    ensures o.Done? ==> !Held(em.localUserCards, em.disk.vaults.Keys, u)
    ensures old(em.faults) <= em.faults
    ensures em.faults == old(em.faults) ==> o == if Held(em.localUserCards, em.disk.vaults.Keys, u) then Threw else Done
  {
    o := Done;
    var existing := CardOf(em.localUserCards, u);
    if existing.Some? && existing.value.vaultId.Some? {
      o := em.Step();
      if !o.Done? { return; }
      if existing.value.vaultId.value in em.disk.vaults { o := Threw; }
    }
  }

  /** The rest of the import, on what the clearing left. */
  method RestoreOnto(em: Device, c: Card, v: VaultId, keys: Keys, credential: JsString, ghost started: Run)
    returns (o: Outcome, ghost run: Run)
    requires Consistent(em.disk) && Fresh(em.disk, v) && c.vaultId == Some(v)
    requires started.base == em.disk && started.load == Some({}) && started.cards == Shown(em.disk)
    requires started.undo.None? && !started.saved
    modifies em
    ensures run == started.(load := run.load, cards := run.cards, clean := run.clean, saved := run.saved, undo := run.undo)
    ensures run.cards == LoadedCards(run.base, run.load)
    ensures AlreadyHere(run, c.userHash) ==> em.disk == run.base && !o.Done?
    ensures run.clean <==> started.clean && run.load == Some({})
    ensures RunOutcome(em.disk, o, run, c, v, keys) == true
    ensures RestoreShows(em.disk, o, run, c, v, keys) == true
    ensures MarksSane(run.base.marks) && run.load == Some({}) ==> OnlyRestoredShown(em.disk, run, c)
    ensures o.Done? ==> Owned(em.disk, v, c.userHash, credential)
    ensures old(em.faults) <= em.faults
    ensures em.faults == old(em.faults) ==>
              run.load == Some({}) && if AlreadyHere(run, c.userHash) then o.Threw? else o.Done? && run.saved
  {
    run := started;
    NothingDone(run, c, v, keys);
    ghost var registryRead, unread;
    o, registryRead, unread := em.LoadLocalUserCards();
    if o.Crashed? { return; }
    ghost var load := if registryRead then Some(unread) else None;
    run := run.(load := load, cards := em.localUserCards, clean := started.clean && load == Some({}));
    NothingDone(run, c, v, keys);
    LoadedFit(run.base, load, v);
    o := RefuseExisting(em, c.userHash);
    if !o.Done? { return; }
    o, run := RestoreIntoNewVault(em, c, v, keys, credential, run);
    EndShows(em.disk, o, run, c, v, keys);
  }

  lemma {:induction false} LoadedFit(d: Disk, load: Option<set<Card>>, v: VaultId)
    requires Consistent(d) && Fresh(d, v)
    ensures DistinctUsers(LoadedCards(d, load)) && !Names(LoadedCards(d, load), v)
  {
    if load.Some? {
      LoadedDistinct(d.marks, Cards(d), load.value);
      forall c | c in LoadedCards(d, load)
        ensures c.vaultId != Some(v)
      {
        LoadedNeverFresh(d, load.value, v, c);
      }
    }
  }

  // ---------- an unread mark ----------

  /** What an earlier restore of u into the vault v leaves when its undo marks and clears the vault but cannot put the
      registry back. */
  function LeftBehind(c: Card, v: VaultId): Disk {
    Disk(Some([c]), map[], map[], map[], map[], Marks(map[], map[v := RestoreMark(c.userHash, None, false)]))
  }

  /** The same again, for the card c into the vault v, where the earlier card was loaded in spite of its mark. */
  function LeftAgain(base: Disk, earlier: Card, c: Card, v: VaultId): Disk {
    var mark := RestoreMark(c.userHash, Some(earlier), false);
    base.(registry := Some([c]), marks := Marks(base.marks.pending[v := mark], base.marks.leftover[v := mark]))
  }

  lemma {:induction false} LeftBehindShows(c: Card, v: VaultId, w: VaultId)
    requires c.vaultId == Some(v) && w != v
    ensures var d := LeftBehind(c, v);
            && Consistent(d) && MarksSane(d.marks) && Fresh(d, w) && MarkedFailed(d.marks, c)
            && Shown(d) == [] && Loaded(d.marks, Cards(d), {c}) == [c]
  {
    var d := LeftBehind(c, v);
    assert Cards(d) == [c] && [c][..0] == [];
    LoadedOne(d.marks, c, {});
    LoadedOne(d.marks, c, {c});
  }

  lemma {:induction false} LeftAgainRestoring(earlier: Card, c: Card, w: VaultId, v: VaultId)
    requires earlier.vaultId == Some(w) && c.vaultId == Some(v) && w != v && earlier.userHash == c.userHash
    ensures var base := LeftBehind(earlier, w);
            WithCard([earlier], c) == [c] && Restoring(base, LeftAgain(base, earlier, c, v), [earlier], c, v)
  {
    var base := LeftBehind(earlier, w);
    var d := LeftAgain(base, earlier, c, v);
    assert CardOf([earlier], c.userHash) == Some(earlier);
    assert d.marks.pending - {v} == base.marks.pending && d.marks.leftover - {v} == base.marks.leftover;
  }

  /**
   * A card marked failed comes back. Both loadings of an import cannot read the mark of the account's failed card, and
   * then take it for the one to put back; the restore fails in its turn and cannot put the registry back. From then on
   * the failed card is shown with every mark read, where before the import no card was.
   */
  lemma {:induction false} UnreadMarkShowsFailed(earlier: Card, c: Card, w: VaultId, v: VaultId, keys: Keys)
    requires earlier.vaultId == Some(w) && c.vaultId == Some(v) && w != v && earlier.userHash == c.userHash
    ensures var base := LeftBehind(earlier, w);
            var d := LeftAgain(base, earlier, c, v);
            var run := Run(Some({earlier}), base, Some({earlier}), [earlier], false, true, Some(Undo(true, false, true, true, 1)));
            && Consistent(base) && MarksSane(base.marks) && Fresh(base, v) && !AlreadyHere(run, c.userHash)
            && run.cards == LoadedCards(base, run.load) && ClearingFrame(base, base, LoadedCards(base, run.cleared), None)
            && RunOutcome(d, Threw, run, c, v, keys)
            && Shown(base) == [] && Shown(d) == [earlier] && MarkedFailed(d.marks, earlier) && !MarksSane(d.marks)
  {
    var base := LeftBehind(earlier, w);
    var d := LeftAgain(base, earlier, c, v);
    LeftBehindShows(earlier, w, v);
    LeftAgainRestoring(earlier, c, w, v);
    ShownWhileRestoring(base, d, [earlier], c, v);
    assert [earlier][..0] == [];
    assert InPlace(base.marks, [earlier], earlier) == [earlier];
    SameFailedMark(base, d, [earlier], c, v, earlier);
    SanityLostIff(base, d, [earlier], c, v);
  }

  // ---------- the other cards ----------

  /** A card of another account, not marked failed. */
  predicate OtherCard(d: Disk, u: UserHash, x: Card) {
    x in Cards(d) && x.userHash != u && !MarkedFailed(d.marks, x)
  }

  ghost predicate OthersKept(base: Disk, d: Disk, u: UserHash) {
    forall x :: OtherCard(base, u, x) ==> x in Cards(d)
  }

  /** The import forgets the other accounts' cards exactly when its loading could not read the registry, it has since
      written the registry, and there was another card; a completed write leaves the restored card alone. */
  lemma {:induction false} OthersForgottenIff(base: Disk, d: Disk, load: Option<set<Card>>, c: Card, v: VaultId)
    requires Consistent(base) && Restoring(base, d, LoadedCards(base, load), c, v)
    ensures OthersKept(base, d, c.userHash) <==>
            load.Some? || d.registry == base.registry || forall x :: !OtherCard(base, c.userHash, x)
    ensures load.None? && d.registry != base.registry ==> d.registry == Some([]) || d.registry == Some([c])
  {
    var cards := LoadedCards(base, load);
    if load.Some? {
      LoadedDistinct(base.marks, Cards(base), load.value);
      WithCardMembers(cards, c);
      forall x | OtherCard(base, c.userHash, x)
        ensures x in Cards(d)
      {
        LoadedKeeps(base.marks, Cards(base), load.value, x);
      }
    } else {
      assert WithCard([], c) == [c];
      assert d.registry != base.registry ==> forall x :: x in Cards(d) ==> x == c;
    }
  }

  // ---------- the accounts meanwhile ----------

  /** A card list that holds the shown card of an account, and no other card on its vault, lets it stand. */
  lemma {:induction false} StillStands(d0: Disk, d: Disk, accounts: map<UserHash, Vault>, w: UserHash)
    requires Sound(d0, accounts) && w in accounts && DistinctUsers(Cards(d)) && CardOf(Cards(d0), w).value in Cards(d)
    requires !MarkedFailed(d.marks, CardOf(Cards(d0), w).value)
    requires forall x :: x in Cards(d) && x.userHash != w ==> x.vaultId != VaultOf(Cards(d0), w)
    requires var v := VaultOf(Cards(d0), w).value;
             v in d.vaults && d.vaults[v] == d0.vaults[v] && v in d.locks
    ensures Stands(d, Cards(d), w, accounts[w]) && VaultOf(Cards(d), w) == VaultOf(Cards(d0), w)
  {
    CardOfIs(Cards(d), CardOf(Cards(d0), w).value);
  }

  /** At every moment of a clearing that could read the registry every account still stands. */
  lemma {:induction false} ClearingKeepsAccounts(d0: Disk, d: Disk, load: Option<set<Card>>, current: Option<VaultId>, accounts: map<UserHash, Vault>)
    requires Sound(d0, accounts) && load.Some? && ClearingFrame(d0, d, LoadedCards(d0, load), current)
    ensures Sound(d, accounts)
  {
    LoadedDistinct(d0.marks, Cards(d0), load.value);
    FewerMarksStayMatched(d0.marks, d.marks);
    forall w | w in accounts
      ensures Stands(d, Cards(d), w, accounts[w]) && ReplacedApart(d.marks, Cards(d), w)
    {
      ClearingKeepsAccount(d0, d, load, current, accounts, w);
    }
  }

  lemma {:induction false} ClearingKeepsAccount(d0: Disk, d: Disk, load: Option<set<Card>>, current: Option<VaultId>, accounts: map<UserHash, Vault>, w: UserHash)
    requires Sound(d0, accounts) && load.Some? && ClearingFrame(d0, d, LoadedCards(d0, load), current)
    requires DistinctUsers(Cards(d)) && w in accounts
    ensures Stands(d, Cards(d), w, accounts[w]) && ReplacedApart(d.marks, Cards(d), w)
  {
    var card := CardOf(Cards(d0), w).value;
    LoadedKeeps(d0.marks, Cards(d0), load.value, card);
    forall x | x in Cards(d) && x.userHash != w
      ensures x.vaultId != VaultOf(Cards(d0), w)
    {
      OthersApart(d0, load.value, accounts, w, x);
    }
    assert Names(LoadedCards(d0, load), card.vaultId.value);
    assert card.vaultId.value !in Unused(d0, LoadedCards(d0, load), current);
    StillStands(d0, d, accounts, w);
  }

  lemma {:induction false} OthersApart(d0: Disk, unread: set<Card>, accounts: map<UserHash, Vault>, w: UserHash, x: Card)
    requires Sound(d0, accounts) && w in accounts && x.userHash != w
    requires x in Cards(d0) || x in Loaded(d0.marks, Cards(d0), unread)
    ensures x.vaultId != VaultOf(Cards(d0), w)
  {
    if x in Loaded(d0.marks, Cards(d0), unread) {
      LoadKeepsApart(d0, unread, accounts, w, x);
    } else {
      var i :| 0 <= i < |Cards(d0)| && Cards(d0)[i] == x;
    }
  }

  lemma {:induction false} WithCardDistinct(cards: seq<Card>, c: Card)
    requires DistinctUsers(cards)
    ensures DistinctUsers(WithCard(cards, c))
  {
    if CardOf(cards, c.userHash).Some? {
      ReplacedKeeps(cards, c);
    }
  }

  /** At every moment of a restore that could read the registry every other account still stands. */
  lemma {:induction false} RestoringKeepsAccounts(base: Disk, d: Disk, load: Option<set<Card>>, c: Card, v: VaultId, accounts: map<UserHash, Vault>)
    requires Sound(base, accounts) && c.userHash !in accounts && Fresh(base, v) && c.vaultId == Some(v)
    requires load.Some? && Restoring(base, d, LoadedCards(base, load), c, v)
    ensures Sound(d, accounts)
  {
    LoadedDistinct(base.marks, Cards(base), load.value);
    WithCardDistinct(LoadedCards(base, load), c);
    forall w | w in accounts
      ensures Stands(d, Cards(d), w, accounts[w]) && ReplacedApart(d.marks, Cards(d), w)
    {
      RestoringKeepsAccount(base, d, load, c, v, accounts, w);
    }
    MarksStayMatched(base, d, LoadedCards(base, load), c, v);
  }

  lemma {:induction false} RestoringKeepsAccount(base: Disk, d: Disk, load: Option<set<Card>>, c: Card, v: VaultId, accounts: map<UserHash, Vault>, w: UserHash)
    requires Sound(base, accounts) && c.userHash !in accounts && Fresh(base, v) && c.vaultId == Some(v)
    requires load.Some? && Restoring(base, d, LoadedCards(base, load), c, v)
    requires DistinctUsers(Cards(d)) && DistinctUsers(LoadedCards(base, load)) && w in accounts
    ensures Stands(d, Cards(d), w, accounts[w]) && ReplacedApart(d.marks, Cards(d), w)
  {
    var card := CardOf(Cards(base), w).value;
    LoadedKeeps(base.marks, Cards(base), load.value, card);
    WithCardMembers(LoadedCards(base, load), c);
    assert card.vaultId != Some(v);
    forall x | x in Cards(d) && x.userHash != w
      ensures x.vaultId != VaultOf(Cards(base), w)
    {
      if x != c { OthersApart(base, load.value, accounts, w, x); }
    }
    SameFailedMark(base, d, LoadedCards(base, load), c, v, card);
    var at := card.vaultId.value;
    assert at in base.vaults - {v} && at in d.vaults - {v} && (d.vaults - {v})[at] == d.vaults[at];
    assert at in base.locks - {v} && at in d.locks - {v};
    StillStands(base, d, accounts, w);
    ReplacedStaysApart(base, d, load, c, v, accounts, w);
  }

  lemma {:induction false} ReplacedStaysApart(base: Disk, d: Disk, load: Option<set<Card>>, c: Card, v: VaultId, accounts: map<UserHash, Vault>, w: UserHash)
    requires Sound(base, accounts) && c.userHash !in accounts && Fresh(base, v) && w in accounts
    requires load.Some? && Restoring(base, d, LoadedCards(base, load), c, v)
    ensures VaultOf(Cards(d), w) == VaultOf(Cards(base), w) ==> ReplacedApart(d.marks, Cards(d), w)
  {
    var replaced := CardOf(LoadedCards(base, load), c.userHash);
    if replaced.Some? {
      LoadKeepsApart(base, load.value, accounts, w, replaced.value);
    }
    forall x | x in d.marks.pending && x != v
      ensures x in base.marks.pending && base.marks.pending[x] == d.marks.pending[x]
    {
      assert x in d.marks.pending - {v};
    }
    forall x | x in d.marks.leftover && x != v
      ensures x in base.marks.leftover && base.marks.leftover[x] == d.marks.leftover[x]
    {
      assert x in d.marks.leftover - {v};
    }
  }

  lemma {:induction false} AccountAlreadyHere(run: Run, accounts: map<UserHash, Vault>, u: UserHash)
    requires Sound(run.base, accounts) && u in accounts && run.load.Some? && run.cards == LoadedCards(run.base, run.load)
    ensures AlreadyHere(run, u)
  {
    LoadKeepsAccount(run.base, run.load.value, accounts, u);
  }

  /** At every moment of an import whose two registry reads succeed every account stands, the restored one among them
      if it stood before; which marks could be read does not matter. */
  lemma {:induction false} ImportKeepsAccounts(d0: Disk, current: Option<VaultId>, d: Disk, run: Run, c: Card, v: VaultId, accounts: map<UserHash, Vault>)
    requires Sound(d0, accounts) && run.cleared.Some? && run.load.Some?
    requires ClearingFrame(d0, run.base, LoadedCards(d0, run.cleared), current)
    requires run.cards == LoadedCards(run.base, run.load) && Fresh(run.base, v) && c.vaultId == Some(v)
    requires Restoring(run.base, d, run.cards, c, v) && (AlreadyHere(run, c.userHash) ==> d == run.base)
    ensures Sound(d, accounts)
  {
    ClearingKeepsAccounts(d0, run.base, run.cleared, current, accounts);
    if c.userHash in accounts {
      AccountAlreadyHere(run, accounts, c.userHash);
    } else {
      RestoringKeepsAccounts(run.base, d, run.load, c, v, accounts);
    }
  }

  lemma {:induction false} WithCardMembers(cards: seq<Card>, c: Card)
    requires DistinctUsers(cards)
    ensures forall x :: x in WithCard(cards, c) ==> x == c || x in cards
    ensures forall x :: x in cards && x.userHash != c.userHash ==> x in WithCard(cards, c)
  {
    if CardOf(cards, c.userHash).Some? {
      ReplacedKeeps(cards, c);
    }
  }
}
