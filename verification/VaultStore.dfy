/** The device's raw key-value store, as passkey rotation and restore use it, and its faults. */
module VaultStore {
  import opened Prelude
  import opened JsText

  type VaultId = JsString
  type UserHash = JsString

  /** What a vault keeps, by name. */
  type Vault = map<JsString, JsString>

  /** A card of pq-vaults-registry. */
  datatype Card = Card(userHash: UserHash, name: JsString, vaultId: Option<VaultId>)

  /** pq-passkey-rotation-<new vault> */
  datatype RotationMarker = RotationMarker(userHash: UserHash, oldVaultId: VaultId, newVaultId: VaultId)

  /** pq-restore-pending-<vault> and pq-restore-leftover-<vault> */
  datatype RestoreMark = RestoreMark(userHash: UserHash, replacedCard: Option<Card>, failed: bool)

  datatype Marks = Marks(pending: map<VaultId, RestoreMark>, leftover: map<VaultId, RestoreMark>)

  /** Everything on disk, one map per key prefix: what survives a crash. */
  datatype Disk = Disk(
    registry: Option<seq<Card>>,
    vaults: map<VaultId, Vault>,
    locks: map<VaultId, JsString>,
    owners: map<VaultId, UserHash>,
    rotations: map<VaultId, RotationMarker>,
    marks: Marks)

  function Cards(d: Disk): seq<Card> {
    match d.registry case None => [] case Some(cards) => cards
  }

  /** A store step is done, throws without effect, or the device stops around it. */
  datatype Outcome = Done | Threw | Crashed

  // ---------- cards as they are shown ----------

  /** #failedRestoreMark, its reads succeeding. */
  function FailedMark(m: Marks, v: VaultId): Option<RestoreMark> {
    if v in m.leftover then Some(m.leftover[v])
    else if v in m.pending && m.pending[v].failed then Some(m.pending[v])
    else None
  }

  predicate MarkedFailed(m: Marks, c: Card) {
    c.vaultId.Some? && FailedMark(m, c.vaultId.value).Some? && FailedMark(m, c.vaultId.value).value.userHash == c.userHash
  }

  /** What #withoutFailedRestores pushes for one card; a card whose marks cannot be read is pushed as it is. */
  function OneShown(m: Marks, c: Card, unread: set<Card>): (r: seq<Card>)
    ensures |r| <= 1
  {
    if c in unread || !MarkedFailed(m, c) then [c]
    else match FailedMark(m, c.vaultId.value).value.replacedCard
         case None => []
         case Some(card) => [card]
  }

  function Loaded(m: Marks, cards: seq<Card>, unread: set<Card>): seq<Card> {
    if cards == [] then []
    else Loaded(m, cards[..|cards| - 1], unread) + OneShown(m, cards[|cards| - 1], unread)
  }

  /** The cards as shown when every mark can be read. */
  function Shown(d: Disk): seq<Card> {
    Loaded(d.marks, Cards(d), {})
  }

  /** cards.find by user hash. */
  function CardOf(cards: seq<Card>, u: UserHash): (c: Option<Card>)
    ensures c.Some? ==> c.value in cards && c.value.userHash == u
    ensures c.None? ==> forall i :: 0 <= i < |cards| ==> cards[i].userHash != u
  {
    if cards == [] then None
    else if cards[0].userHash == u then Some(cards[0])
    else
      assert forall i :: 0 < i < |cards| ==> cards[i] == cards[1..][i - 1];
      CardOf(cards[1..], u)
  }

  function VaultOf(cards: seq<Card>, u: UserHash): Option<VaultId> {
    match CardOf(cards, u) case None => None case Some(c) => c.vaultId
  }

  predicate Names(cards: seq<Card>, v: VaultId) {
    exists i :: 0 <= i < |cards| && cards[i].vaultId == Some(v)
  }

  predicate DistinctUsers(cards: seq<Card>) {
    forall i, j :: 0 <= i < j < |cards| ==> cards[i].userHash != cards[j].userHash
  }

  // ---------- invariants of the disk ----------

  /** A replaced card belongs to the mark's account. */
  predicate MarkMatches(mark: RestoreMark) {
    mark.replacedCard.Some? ==> mark.replacedCard.value.userHash == mark.userHash
  }

  /** The two marks of one vault are of one restore. */
  predicate MarksMatch(m: Marks) {
    && (forall v :: v in m.pending ==> MarkMatches(m.pending[v]))
    && (forall v :: v in m.leftover ==> MarkMatches(m.leftover[v]))
    && (forall v :: v in m.leftover && v in m.pending ==> m.leftover[v].userHash == m.pending[v].userHash)
  }

  /** What the mark puts back is not itself marked failed. */
  predicate PutsBackUnfailed(m: Marks, mark: RestoreMark) {
    mark.replacedCard.Some? ==> !MarkedFailed(m, mark.replacedCard.value)
  }

  /** No mark puts back a card that is marked failed. */
  predicate MarksSane(m: Marks) {
    && MarksMatch(m)
    && (forall v :: v in m.pending ==> PutsBackUnfailed(m, m.pending[v]))
    && (forall v :: v in m.leftover ==> PutsBackUnfailed(m, m.leftover[v]))
  }

  /** The registry's card of u names a vault that is present, has its lock record and holds entries. */
  predicate Stands(d: Disk, cards: seq<Card>, u: UserHash, entries: Vault) {
    && VaultOf(cards, u).Some? && !MarkedFailed(d.marks, CardOf(cards, u).value)
    && var v := VaultOf(cards, u).value;
    && v in d.vaults && d.vaults[v] == entries && v in d.locks
    && forall i :: 0 <= i < |cards| && cards[i].userHash != u ==> cards[i].vaultId != Some(v)
  }

  /** No mark would put a card back that names the vault of another account. */
  predicate ReplacedApart(m: Marks, cards: seq<Card>, u: UserHash) {
    && (forall x :: x in m.pending && m.pending[x].replacedCard.Some? && m.pending[x].userHash != u ==>
          m.pending[x].replacedCard.value.vaultId != VaultOf(cards, u))
    && (forall x :: x in m.leftover && m.leftover[x].replacedCard.Some? && m.leftover[x].userHash != u ==>
          m.leftover[x].replacedCard.value.vaultId != VaultOf(cards, u))
  }

  /** Every account of a given set can be opened from this disk and holds what it should. */
  ghost predicate Sound(d: Disk, accounts: map<UserHash, Vault>) {
    && DistinctUsers(Cards(d)) && MarksMatch(d.marks)
    && forall u :: u in accounts ==> Stands(d, Cards(d), u, accounts[u]) && ReplacedApart(d.marks, Cards(d), u)
  }

  /** cards.map that puts c in the place of the card of its account. */
  function Replaced(cards: seq<Card>, c: Card): (r: seq<Card>)
    ensures |r| == |cards|
  {
    seq(|cards|, i requires 0 <= i < |cards| => if cards[i].userHash == c.userHash then c else cards[i])
  }

  lemma {:induction false} CardOfIs(cards: seq<Card>, c: Card)
    requires DistinctUsers(cards) && c in cards
    ensures CardOf(cards, c.userHash) == Some(c)
  {
    var i :| 0 <= i < |cards| && cards[i] == c;
    var found := CardOf(cards, c.userHash).value;
    var j :| 0 <= j < |cards| && cards[j] == found;
  }

  lemma {:induction false} ReplacedKeeps(cards: seq<Card>, c: Card)
    requires DistinctUsers(cards) && CardOf(cards, c.userHash).Some?
    ensures DistinctUsers(Replaced(cards, c)) && CardOf(Replaced(cards, c), c.userHash) == Some(c)
    ensures forall x :: x in Replaced(cards, c) ==> x == c || (x in cards && x.userHash != c.userHash)
    ensures forall x :: x in cards && x.userHash != c.userHash ==> x in Replaced(cards, c)
  {
    var i :| 0 <= i < |cards| && cards[i] == CardOf(cards, c.userHash).value;
    assert Replaced(cards, c)[i] == c;
    CardOfIs(Replaced(cards, c), c);
    forall x | x in cards && x.userHash != c.userHash
      ensures x in Replaced(cards, c)
    {
      var j :| 0 <= j < |cards| && cards[j] == x;
      assert Replaced(cards, c)[j] == x;
    }
  }

  // ---------- what loading keeps ----------

  /** Every loaded card is a card of the registry, or what a failed mark puts in its place. */
  lemma {:induction false} LoadedFrom(m: Marks, cards: seq<Card>, unread: set<Card>, c: Card) returns (from: Card)
    requires c in Loaded(m, cards, unread)
    ensures from in cards && c in OneShown(m, from, unread)
  {
    var last := cards[|cards| - 1];
    if c in OneShown(m, last, unread) {
      from := last;
    } else {
      from := LoadedFrom(m, cards[..|cards| - 1], unread, c);
    }
  }

  /** A card with no failed mark is shown, whichever marks could be read. */
  lemma {:induction false} LoadedKeeps(m: Marks, cards: seq<Card>, unread: set<Card>, c: Card)
    requires c in cards && !MarkedFailed(m, c)
    ensures c in Loaded(m, cards, unread)
  {
    if c != cards[|cards| - 1] {
      LoadedKeeps(m, cards[..|cards| - 1], unread, c);
    }
  }

  lemma {:induction false} LoadedDistinct(m: Marks, cards: seq<Card>, unread: set<Card>)
    requires DistinctUsers(cards) && MarksMatch(m)
    ensures DistinctUsers(Loaded(m, cards, unread))
  {
    if cards != [] {
      var front, last := cards[..|cards| - 1], cards[|cards| - 1];
      LoadedDistinct(m, front, unread);
      forall c | c in Loaded(m, front, unread)
        ensures c.userHash != last.userHash
      {
        var from := LoadedFrom(m, front, unread, c);
        assert c.userHash == from.userHash;
      }
    }
  }

  /** A read failed mark of some card puts c in its place. */
  ghost predicate PutBackBy(m: Marks, cards: seq<Card>, unread: set<Card>, c: Card) {
    exists x :: x in cards && x !in unread && MarkedFailed(m, x) && FailedMark(m, x.vaultId.value).value.replacedCard == Some(c)
  }

  lemma {:induction false} OneShownLoaded(m: Marks, cards: seq<Card>, unread: set<Card>, x: Card, c: Card)
    requires x in cards && c in OneShown(m, x, unread)
    ensures c in Loaded(m, cards, unread)
  {
    if x != cards[|cards| - 1] {
      OneShownLoaded(m, cards[..|cards| - 1], unread, x, c);
    }
  }

  /** When a card marked failed is loaded: its mark could not be read, or another failed mark puts it back. */
  lemma {:induction false} LoadsFailedIff(m: Marks, cards: seq<Card>, unread: set<Card>, c: Card)
    requires MarkedFailed(m, c)
    ensures c in Loaded(m, cards, unread) <==> (c in cards && c in unread) || PutBackBy(m, cards, unread, c)
  {
    if c in Loaded(m, cards, unread) {
      var from := LoadedFrom(m, cards, unread, c);
      assert from == c || FailedMark(m, from.vaultId.value).value.replacedCard == Some(c);
    }
    if c in cards && c in unread {
      OneShownLoaded(m, cards, unread, c, c);
    }
    if PutBackBy(m, cards, unread, c) {
      var x :| x in cards && x !in unread && MarkedFailed(m, x) && FailedMark(m, x.vaultId.value).value.replacedCard == Some(c);
      OneShownLoaded(m, cards, unread, x, c);
    }
  }

  lemma {:induction false} SanePutsBackNone(m: Marks, cards: seq<Card>, unread: set<Card>, c: Card)
    requires MarksSane(m) && MarkedFailed(m, c)
    ensures !PutBackBy(m, cards, unread, c)
  {
    if x :| x in cards && x !in unread && MarkedFailed(m, x) && FailedMark(m, x.vaultId.value).value.replacedCard == Some(c) {
      var v := x.vaultId.value;
      assert PutsBackUnfailed(m, FailedMark(m, v).value) by {
        assert v in m.leftover || v in m.pending;
      }
    }
  }

  /** Where no mark puts back a failed card, a session shows one exactly if it could not read its mark. */
  lemma {:induction false} ShowsFailedIffUnread(m: Marks, cards: seq<Card>, unread: set<Card>, c: Card)
    requires MarksSane(m) && MarkedFailed(m, c)
    ensures c in Loaded(m, cards, unread) <==> c in cards && c in unread
  {
    LoadsFailedIff(m, cards, unread, c);
    SanePutsBackNone(m, cards, unread, c);
  }

  /** With every mark read, no card marked failed is shown. */
  lemma {:induction false} NeverShowsFailed(d: Disk, c: Card)
    requires MarksSane(d.marks) && c in Shown(d)
    ensures !MarkedFailed(d.marks, c)
  {
    if MarkedFailed(d.marks, c) {
      ShowsFailedIffUnread(d.marks, Cards(d), {}, c);
    }
  }

  lemma {:induction false} LoadedOfUnmarked(m: Marks, cards: seq<Card>, unread: set<Card>)
    requires forall c :: c in cards ==> !MarkedFailed(m, c)
    ensures Loaded(m, cards, unread) == cards
  {
    if cards != [] {
      LoadedOfUnmarked(m, cards[..|cards| - 1], unread);
      assert cards[|cards| - 1] in cards;
    }
  }

  lemma {:induction false} LoadedAppend(m: Marks, a: seq<Card>, b: seq<Card>, unread: set<Card>)
    ensures Loaded(m, a + b, unread) == Loaded(m, a, unread) + Loaded(m, b, unread)
  {
    if b == [] {
      assert a + b == a;
    } else {
      var front, last := b[..|b| - 1], b[|b| - 1];
      LoadedAppend(m, a, front, unread);
      assert (a + b)[..|a + b| - 1] == a + front && (a + b)[|a + b| - 1] == last;
      CardsAssociate(Loaded(m, a, unread), Loaded(m, front, unread), OneShown(m, last, unread));
    }
  }

  lemma {:induction false} CardsAssociate(x: seq<Card>, y: seq<Card>, z: seq<Card>)
    ensures x + (y + z) == (x + y) + z
  {
  }

  lemma {:induction false} LoadedOne(m: Marks, c: Card, unread: set<Card>)
    ensures Loaded(m, [c], unread) == OneShown(m, c, unread)
  {
    assert [c][..0] == [];
  }

  lemma {:induction false} OneReloaded(m: Marks, c: Card, unread: set<Card>)
    requires MarksSane(m)
    ensures Loaded(m, OneShown(m, c, unread), {}) == OneShown(m, c, {})
  {
    if c in unread || !MarkedFailed(m, c) {
      LoadedOne(m, c, {});
    } else {
      var mark := FailedMark(m, c.vaultId.value).value;
      assert PutsBackUnfailed(m, mark) by {
        assert c.vaultId.value in m.leftover || c.vaultId.value in m.pending;
      }
      if mark.replacedCard.Some? {
        LoadedOne(m, mark.replacedCard.value, {});
      }
    }
  }

  /** What was loaded, loaded again with every mark read, is what is shown. */
  lemma {:induction false} Reloaded(m: Marks, cards: seq<Card>, unread: set<Card>)
    requires MarksSane(m)
    ensures Loaded(m, Loaded(m, cards, unread), {}) == Loaded(m, cards, {})
  {
    if cards != [] {
      var front, last := cards[..|cards| - 1], cards[|cards| - 1];
      Reloaded(m, front, unread);
      OneReloaded(m, last, unread);
      LoadedAppend(m, Loaded(m, front, unread), OneShown(m, last, unread), {});
    }
  }

  /** Loading looks only at the marks of the vaults that cards name. */
  lemma {:induction false} LoadedSame(m: Marks, m': Marks, cards: seq<Card>, unread: set<Card>, unread': set<Card>)
    requires forall c :: c in cards ==> OneShown(m, c, unread) == OneShown(m', c, unread')
    ensures Loaded(m, cards, unread) == Loaded(m', cards, unread')
  {
    if cards != [] {
      assert cards[|cards| - 1] in cards;
      LoadedSame(m, m', cards[..|cards| - 1], unread, unread');
    }
  }

  /** d' is d with some of what it keeps for the vaults vs removed, and nothing else. */
  predicate ClearedPart(d: Disk, d': Disk, vs: set<VaultId>) {
    && d'.registry == d.registry && d'.rotations == d.rotations && d'.marks == d.marks
    && Shrunk(d.vaults, d'.vaults, vs) && Shrunk(d.locks, d'.locks, vs) && Shrunk(d.owners, d'.owners, vs)
  }

  /** m' is m with some of the keys vs removed. */
  predicate Shrunk<V(==)>(m: map<VaultId, V>, m': map<VaultId, V>, vs: set<VaultId>) {
    && (forall k :: k in m' ==> k in m && m'[k] == m[k])
    && (forall k :: k in m ==> k in m' || k in vs)
  }

  /** The vault has its lock record, of this credential, and its owner. */
  predicate Owned(d: Disk, v: VaultId, u: UserHash, credential: JsString) {
    v in d.locks && d.locks[v] == credential && v in d.owners && d.owners[v] == u
  }

  /** Nothing is kept for the vault. */
  predicate Gone(d: Disk, v: VaultId) {
    v !in d.vaults && v !in d.locks && v !in d.owners
  }

  /** Nothing on disk mentions the id. */
  predicate Fresh(d: Disk, v: VaultId) {
    && Gone(d, v) && v !in d.rotations && v !in d.marks.pending && v !in d.marks.leftover
    && (forall c :: c in Cards(d) ==> c.vaultId != Some(v))
    && (forall k :: k in d.rotations ==> d.rotations[k].oldVaultId != v && d.rotations[k].newVaultId != v)
    && (forall k :: k in d.marks.pending && d.marks.pending[k].replacedCard.Some? ==>
          d.marks.pending[k].replacedCard.value.vaultId != Some(v))
    && (forall k :: k in d.marks.leftover && d.marks.leftover[k].replacedCard.Some? ==>
          d.marks.leftover[k].replacedCard.value.vaultId != Some(v))
  }

  lemma {:induction false} LoadedNeverFresh(d: Disk, unread: set<Card>, v: VaultId, c: Card)
    requires Fresh(d, v) && c in Loaded(d.marks, Cards(d), unread)
    ensures c.vaultId != Some(v)
  {
    assert !Names(Cards(d), v);
    LoadedNotNaming(d, Cards(d), unread, v, c);
  }

  lemma {:induction false} LoadedNotNaming(d: Disk, cards: seq<Card>, unread: set<Card>, v: VaultId, c: Card)
    requires Fresh(d, v) && !Names(cards, v) && c in Loaded(d.marks, cards, unread)
    ensures c.vaultId != Some(v)
  {
    var from := LoadedFrom(d.marks, cards, unread, c);
    var i :| 0 <= i < |cards| && cards[i] == from;
    if c != from {
      var w := from.vaultId.value;
      assert w in d.marks.leftover || w in d.marks.pending;
    }
  }

  /** Loaded cards hold the card of every account as the registry has it. */
  lemma {:induction false} LoadKeepsAccount(d: Disk, unread: set<Card>, accounts: map<UserHash, Vault>, u: UserHash)
    requires Sound(d, accounts) && u in accounts
    ensures DistinctUsers(Loaded(d.marks, Cards(d), unread))
    ensures CardOf(Loaded(d.marks, Cards(d), unread), u) == CardOf(Cards(d), u)
  {
    LoadedDistinct(d.marks, Cards(d), unread);
    var c := CardOf(Cards(d), u).value;
    LoadedKeeps(d.marks, Cards(d), unread, c);
    CardOfIs(Loaded(d.marks, Cards(d), unread), c);
  }

  /** No other account's loaded card names the vault an account stands on. */
  lemma {:induction false} LoadKeepsApart(d: Disk, unread: set<Card>, accounts: map<UserHash, Vault>, u: UserHash, c: Card)
    requires Sound(d, accounts) && u in accounts && c in Loaded(d.marks, Cards(d), unread) && c.userHash != u
    ensures c.vaultId != VaultOf(Cards(d), u)
  {
    var from := LoadedFrom(d.marks, Cards(d), unread, c);
    var i :| 0 <= i < |Cards(d)| && Cards(d)[i] == from;
    if c != from {
      var v := from.vaultId.value;
      assert v in d.marks.leftover || v in d.marks.pending;
    }
  }

  // ---------- the device ----------

  /** What of EncryptionManagerPQ rotation and restore change: the raw store, and two private fields. */
  class Device {
    var disk: Disk
    var localUserCards: seq<Card>
    var currentVault: Option<VaultId>
    /** How many steps did not go well. What is promised when no step fails is promised while this stays as it was. */
    ghost var faults: nat

    constructor (stored: Disk)
      ensures disk == stored && localUserCards == [] && currentVault == None
    {
      disk, localUserCards, currentVault, faults := stored, [], None, 0;
    }

    /** One set or remove of the raw store. */
    method Write(next: Disk) returns (o: Outcome)
      modifies this`disk, this`faults
      ensures disk == old(disk) || disk == next
      ensures o.Done? ==> disk == next
      ensures o.Threw? ==> disk == old(disk)
      ensures old(faults) <= faults && (faults == old(faults) <==> o.Done?)
    {
      o := Step();
      var written := o.Done?;
      if o.Crashed? { written := *; }
      if written { disk := next; }
    }

    /** Whatever else may fail: a get or keys of the raw store, a passkey ceremony, a session that must not have ended. */
    method Step() returns (o: Outcome)
      modifies this`faults
      ensures old(faults) <= faults && (faults == old(faults) <==> o.Done?)
    {
      o := *;
      if !o.Done? { faults := faults + 1; }
    }

    /** What storing a value makes of it. */
    method Stored(value: JsString) returns (stored: JsString)
      modifies this`faults
      ensures old(faults) <= faults && (faults == old(faults) ==> stored == value)
    {
      stored := *;
      if stored != value { faults := faults + 1; }
    }

    /** #failedRestoreMark: a mark that cannot be read counts as none. */
    method FailedRestoreMark(v: VaultId) returns (o: Outcome, mark: Option<RestoreMark>, ghost read: bool)
      modifies this`faults
      ensures !o.Threw? && old(faults) <= faults && (faults == old(faults) ==> o.Done? && read)
      ensures mark == if read then FailedMark(disk.marks, v) else None
    {
      mark, read := None, false;
      o := Step();
      if o.Threw? { return Done, None, false; }
      if o.Crashed? { return; }
      if v in disk.marks.leftover { return Done, Some(disk.marks.leftover[v]), true; }
      o := Step();
      if o.Threw? { return Done, None, false; }
      if o.Crashed? { return; }
      read := true;
      if v in disk.marks.pending && disk.marks.pending[v].failed { mark := Some(disk.marks.pending[v]); }
    }

    /** #loadLocalUserCards and #withoutFailedRestores: a registry that cannot be read counts as empty. */
    method LoadLocalUserCards() returns (o: Outcome, ghost registryRead: bool, ghost unread: set<Card>)
      requires DistinctUsers(Cards(disk))
      modifies this`localUserCards, this`faults
      ensures !o.Threw?
      ensures old(faults) <= faults && (faults == old(faults) ==> o.Done? && registryRead && unread == {})
      ensures o.Crashed? ==> localUserCards == old(localUserCards)
      ensures o.Done? && registryRead ==> localUserCards == Loaded(disk.marks, Cards(disk), unread)
      ensures o.Done? && !registryRead ==> localUserCards == []
    {
      registryRead, unread := false, {};
      o := Step();
      if o.Crashed? { return; }
      if o.Threw? {
        localUserCards, o := [], Done;
        return;
      }
      registryRead := true;
      var cards := Cards(disk);
      var shown: seq<Card> := [];
      for i := 0 to |cards|
        invariant o.Done? && shown == Loaded(disk.marks, cards[..i], unread)
        invariant forall c :: c in unread ==> c in cards[..i]
        invariant localUserCards == old(localUserCards)
        invariant old(faults) <= faults && (faults == old(faults) ==> unread == {})
      {
        var card := cards[i];
        ghost var before := unread;
        if card.vaultId.None? {
          shown := shown + [card];
        } else {
          var mark;
          ghost var read;
          o, mark, read := FailedRestoreMark(card.vaultId.value);
          if o.Crashed? { return; }
          if !read { unread := unread + {card}; }
          if mark.None? || mark.value.userHash != card.userHash {
            shown := shown + [card];
          } else if mark.value.replacedCard.Some? {
            shown := shown + [mark.value.replacedCard.value];
          }
        }
        assert cards[..i + 1][..i] == cards[..i];
        LoadedSame(disk.marks, disk.marks, cards[..i], before, unread);
      }
      assert cards[..|cards|] == cards;
      localUserCards := shown;
    }

    /** #clearAccountVault(vaultId, 'prf') with dropPrfVault. */
    method ClearAccountVault(v: VaultId) returns (o: Outcome)
      modifies this`disk, this`currentVault, this`faults
      ensures ClearedPart(old(disk), disk, {v})
      ensures old(faults) <= faults && (faults == old(faults) ==> o.Done?)
      ensures currentVault == old(currentVault) || (old(currentVault) == Some(v) && currentVault == None)
      ensures o.Done? ==> Gone(disk, v) && currentVault != Some(v)
    {
      o := Step();
      if !o.Done? { return; }
      var open := currentVault == Some(v);
      if open {
        // The handle's own clear, its failure ignored.
        o := Write(disk.(vaults := disk.vaults - {v}));
        if o.Crashed? { return; }
      }
      o := Write(disk.(vaults := disk.vaults - {v}));
      if !o.Done? { return; }
      o := Write(disk.(locks := disk.locks - {v}));
      if !o.Done? { return; }
      o := Step();
      if !o.Done? { return; }
      if v in disk.vaults {
        o := Threw;
        return;
      }
      if open { currentVault := None; }
      o := Write(disk.(owners := disk.owners - {v}));
    }
  }
}
