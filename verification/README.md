# Verification model of the BuckItUp client

A Dafny model of the hardest logic of the client and of its protocol package, with proofs. Each module follows one
component of the code; the imperative parts are methods proved against specification functions and predicates.

- **View trie and checkpoints** (`Bits`, `ViewTrie`, `ViewCommitment`, `TrieInsert`, `TrieBuild`, `TrieDiff`, `TrieProof`,
  `Frontier`): the compressed Merkle trie over a dialog's view, built by a radix split that compares the first and the
  last key; its uniqueness, its structural diff, its inclusion proofs, and the framed frontier hash.
- **Dialog checkpoints** (`DialogRows`, `CheckpointWorklist`, `DialogViews`, `DialogCheckpoint`): creating a checkpoint,
  comparing with it, and rebuilding the view under its frontier by a worklist over citations.
- **Causal admission** (`CausalGate`): the rule for one row, and a gate that re-checks waiting rows.
- **Passkeys** (`VaultStore`, `PasskeyRotation`, `PasskeyRestore`): two protocols that write a mark first, over a
  key-value store in which each step may fail without effect and the device may stop around any step.
- **Contacts** (`ContactEdits`): optimistic edits, and how a failed one is taken back.
- **Content** (`WireGrammar`, `ContentParts`, `ContentCodec`, `ContentQuotes`, `ContentRoundTrip`, `ContentSafety`): the
  wire JSON of messages, its round trip, what quotes may carry, and what they tell of the rest.
- **Blowfish** (`Blowfish`, `CipherModes`, `BlowfishWords`): the cipher for any key tables, and its four modes.
- **Video** (`VideoRange`, `VideoStream`): range headers, chunk plans, the pull loop and its cache.
- **Signatures** (`Base64`, `Base64Lists`, `SignaturePayload`, `SignedValues`): the canonical payload of a row over the
  forms its columns arrive in, and which values it tells apart.

`JsText`, `Records`, `Framing` and `Decimals` hold what these share: strings as UTF-16 code units with their order and
TextEncoder, objects as entries and maps, digests, frames and hex, and decimal numbers.

## How hashes and faults are read

A hash is any function to 64 bytes; none is injective. A binding theorem therefore says: the claim holds, or two
different inputs with one digest are among the pre-images that the two sides hash. It never says merely that a
collision exists.

A store step is done, throws without effect, or the device stops before or after it (`VaultStore.Device.Write`). A
method that models a protocol may return at any such stop, and its contract speaks of every one of them. That a write
succeeds is never assumed. What could not be read is an output of the methods, and what follows from it is stated. Each
step that does not go well adds to a ghost count (`VaultStore.Device.Step`); "when no step fails" means that the count
stays as it was, and the contracts say what is achieved then.

Every lemma turns automatic induction off, so each proof is what its body says.

## What the code does that its comments do not say

- The scan of `buildBranch` does not end for two keys that differ in trailing NULs only, and `buildViewTree` lets such
  keys through (`Bits.DivergeIffStrippedDiffer`, `TrieBuild.TrailingNulHasNoTrie`). Wire ids have no NUL.
- Comparing takes the frontier over all current rows but the view over the admitted ones. With equal histories the
  verdict that "MUST" not be is given exactly while some row compared is not admitted
  (`DialogCheckpoint.InconsistentIffUnadmitted`): the signed dialog itself before admission
  (`DialogCheckpoint.SignedRowNotYetAdmitted`), or a row that waits for one it cites
  (`DialogCheckpoint.WaitingRowNotYetAdmitted`).
- Equal closed histories may give different views if two revisions of a message tie in time
  (`DialogViews.TiesAllowTwoViews`); without a tie they do not (`DialogViews.SameFrontierSameView`).
- A rotation that commits while an older marker of the account could not be cleared strands that marker and its vault
  (`PasskeyRotation.OlderMarkersAreStranded`); two failed clearings are enough (`PasskeyRotation.FailedClearingStrands`).
- If the registry cannot be read once, loading goes on with no cards, and clearing then writes that over the registry
  (`PasskeyRestore.UnreadRegistryIsForgotten`).
- If an import cannot read it, a registry write of the import leaves the restored card alone, or no card, and every other
  account's card is forgotten (`PasskeyRestore.OthersForgottenIff` says exactly when).
- If the mark of a vault in use cannot be read while clearing, its pending mark goes, although it may be the only one that
  says the restore failed (`PasskeyRestore.UnreadMarkIsDropped`).
- If an import cannot read the mark of its account's failed card, it takes that card for the one to put back. If it fails
  too, with its card still in the registry, the failed card is shown again (`PasskeyRestore.UnreadMarkShowsFailed`,
  exactly when: `PasskeyRestore.FailedShownIff`).
- The undo of a restore clears the vault even when it could write neither mark nor registry, so a card can be shown
  over a cleared vault (`PasskeyRestore.UndoRestore` says exactly when).
- A restore reports success although its registry write failed, as that failure is ignored
  (`PasskeyRestore.ImportVaultKeys`); its card is then not shown and its mark is removed.
- The answer to the newest contact edit replaces what is shown; while an older edit is out this keeps the screen right
  exactly when it changes nothing on it (`ContactEdits.ContactsStore.Accept`).
- A suffix range of an empty file is accepted with an end before its start (`VideoRange.EmptyFileRange`).
- A missing binary column and three certain bytes encode alike (`SignaturePayload.NullIsThreeBytes`), a missing text and
  the text "null" (`SignedValues.TextsSameIff`).
- The text of a binary list does not say where an element of whole triples ends (`Base64Lists.BoundaryLost`;
  `Base64Lists.JoinedSameIff` says what it does say). The hashes that are listed so are 64 bytes long, and told apart.

## Model

| member | source | states |
|---|---|---|
| `ViewTrie.DeriveLeafHash` | packages/pq-client/src/checkpoint.ts:98-104 | The digest of a leaf is the hash of its domain, framed key, framed sign hash and one byte for deleted. |
| `ViewTrie.NodeHash` | packages/pq-client/src/checkpoint.ts:118-122 | The digest of a node is the hash of its domain, its bit in four bytes and the two child digests. |
| `Framing.ConcatBytes` | packages/pq-client/src/checkpoint.ts:61-66 | The buffer that the loop fills is the concatenation of the parts. |
| `ViewTrie.DomainsApart` | packages/pq-client/src/checkpoint.ts:42-44 | No leaf, node and empty pre-image coincide. |
| `ViewTrie.LeafPreimageInjective` | packages/pq-client/src/checkpoint.ts:48-59 | A leaf pre-image determines key, sign hash and deleted flag, for well-formed strings shorter than 2^32 bytes. |
| `ViewTrie.LeafPreimageBinds` | packages/pq-client/src/checkpoint.ts:98-104 | With only one of two leaves known to be so: the other is the same leaf once its unpaired surrogates are U+FFFD, whatever its lengths. |
| `ViewTrie.NodePreimageInjective` | packages/pq-client/src/checkpoint.ts:118-122 | A node pre-image determines the bit modulo 2^32 and both child digests. |
| `ViewTrie.IllFormedHashesCollapse` | packages/pq-client/src/checkpoint.ts:46 | Two sign hashes share a leaf pre-image if and only if they are one text once unpaired surrogates are U+FFFD. |
| `ViewCommitment.IllFormedViewsShareRoot` | packages/pq-client/src/checkpoint.ts:46 | Every view shares root and all that is hashed with the one that has U+FFFD there, which is another view if and only if some sign hash is ill-formed. |
| `Framing.FramePrefix` | packages/pq-client/src/checkpoint.ts:48-59 | A length-framed field says where it ends, whatever follows it. |
| `Bits.BitOfPadded` | packages/pq-client/src/checkpoint.ts:115-116 | A bit is that of its byte, counted from the left, every byte past the end of the key being 0. |
| `Bits.DivergeIffStrippedDiffer` | packages/pq-client/src/checkpoint.ts:126-131 | The scan for a disagreeing bit ends for two keys if and only if they differ otherwise than in trailing NULs. |
| `Bits.LexLessIsBefore` | packages/pq-client/src/checkpoint.ts:150-157 | For keys that some bit tells apart, string order is bit order. |
| `Bits.BetweenAgrees` | packages/pq-client/src/checkpoint.ts:126-127 | A key between two others agrees with them on every bit up to which those two agree. |
| `TrieBuild.EndsDecide` | packages/pq-client/src/checkpoint.ts:126-131 | Comparing the first and the last of a sorted list is enough: where those agree, all of its keys agree. |
| `TrieBuild.FirstDisagreement` | packages/pq-client/src/checkpoint.ts:128-131 | The scan ends, at the first bit from its start where the first key has 0 and the last has 1, all lower bits agreeing. |
| `TrieBuild.FindSplit` | packages/pq-client/src/checkpoint.ts:132 | findIndex cuts the list into keys with 0 and keys with 1 at the bit, both sides non-empty. |
| `TrieBuild.BuildBranch` | packages/pq-client/src/checkpoint.ts:124-136 | Terminates and builds a radix trie with correct hashes whose leaves are the input, in order; bits increase down each path. |
| `TrieBuild.BuildViewTree` | packages/pq-client/src/checkpoint.ts:149-170 | Refuses exactly the states with a key that is empty or not ASCII; otherwise it builds the tree of the state, for keys that some bit tells apart. |
| `TrieBuild.NulFreeKeysDiverge` | packages/pq-client/src/checkpoint.ts:150-157 | ASCII keys without NUL are always told apart by some bit, so the precondition of building holds for them. |
| `TrieBuild.TrailingNulHasNoTrie` | packages/pq-client/src/checkpoint.ts:154-160 | "a" and "a" with a NUL are both let through, and no trie holds both. |
| `TrieInsert.TrieExistsIff` | packages/pq-client/src/checkpoint.ts:124-136 | A non-empty state has a trie if and only if some bit tells apart every two of its keys. |
| `ViewTrie.TrieUnique` | packages/pq-client/src/checkpoint.ts:143-148 | Shape and hashes of a trie are determined by the state it holds. |
| `TrieBuild.ArrivalOrderForgotten` | packages/pq-client/src/checkpoint.ts:143-148 | Two objects with the same entries, added in any two orders, have one tree. |
| `TrieInsert.RebuildIsInsert` | packages/pq-client/src/checkpoint.ts:17-21 | Rebuilding after adding or changing one message equals inserting it along one path of the old trie. |
| `TrieInsert.RebuildTouchesOnePath` | packages/pq-client/src/checkpoint.ts:17-21 | Every branch of the new trie that does not hold the message was in the old one, and every old branch off its search path is in the new one. |
| `ViewCommitment.RootBinding` | packages/pq-client/src/checkpoint.ts:86-170 | Two states with one view root are one state, or the pre-images of the two trees hold two different inputs with one digest; empty, one-leaf and larger trees alike. |
| `TrieDiff.Collector.Walk` | packages/pq-client/src/checkpoint.ts:201-219 | The recursive walk pushes exactly what the specification Walked lists, in order. |
| `TrieDiff.DiffViewTrees` | packages/pq-client/src/checkpoint.ts:196-223 | On any two built trees: the sorted lists of added, removed and changed keys, each once and exact, or a collision is exhibited. |
| `TrieDiff.DiffIsExact` | packages/pq-client/src/checkpoint.ts:190-195 | The same about the specification: skipping equal hashes and walking equal bits with different prefixes lose nothing. |
| `TrieDiff.SidesAddUp` | packages/pq-client/src/checkpoint.ts:203-207 | Keys on different sides of a bit never meet, so the diffs of the two sides add up to the diff of the whole. |
| `TrieDiff.ApplyGivesNew` | packages/pq-client/src/checkpoint.ts:190-195 | Applying an exact diff to the old state gives the new one. |
| `TrieDiff.ClassifyChanges` | packages/pq-client/src/checkpoint.ts:287-300 | The list in its order: what was added, what was removed, then each change as Classified has it, whose meaning the next row gives. |
| `TrieDiff.ClassifiedTellsFates` | packages/pq-client/src/checkpoint.ts:281-300 | On the two states: a message is told as added or removed exactly if it is in one only; in both, as deleted exactly if it was not deleted and is now, as restored exactly the reverse, as edited exactly if it differs and neither holds; with both revisions, once, and nothing else. |
| `TrieProof.VerifyViewProof` | packages/pq-client/src/checkpoint.ts:251-270 | Returns true exactly when every step is well formed and the climb from the leaf ends in the given root. |
| `TrieProof.ProveViewKey` | packages/pq-client/src/checkpoint.ts:230-245 | The path collected by the loop is the search path of the specification, or none. |
| `TrieProof.ProofsComplete` | packages/pq-client/src/checkpoint.ts:229-245 | A key gets a proof if and only if the state holds it, and that proof verifies with its value. |
| `TrieProof.ProofsSound` | packages/pq-client/src/checkpoint.ts:251-270 | Any key, value and step list accepted against a built root are of a pair the state holds, though bits and sides are never compared with the key; or a collision is exhibited. |
| `TrieProof.OwnProofAccepts` | packages/pq-client/src/checkpoint.ts:229-270 | The proof collected for a key is accepted, up to collisions, for exactly the value the state holds. |
| `Frontier.DeriveFrontierRoot` | packages/pq-client/src/checkpoint.ts:79-84 | The root depends on the map alone, not on the order of its entries. |
| `Frontier.FrontierBinding` | packages/pq-client/src/checkpoint.ts:74-84 | Two frontiers with one root are one frontier, or their pre-images collide. |
| `DialogCheckpoint.WireIdIsTreeKey` | packages/pq-client/src/content.ts:306-309 | An id of the wire grammar is ASCII, non-empty and free of NUL. |
| `DialogCheckpoint.ComputeDialogViewState` | src/store/dialogs.store.js:1607-1628 | With one row a message: each admitted row of a wire id is in the state with its sign hash, deleted exactly if the row is, and no other message is; listed are exactly the other rows. |
| `DialogViews.ShowsOnlyView` | src/store/dialogs.store.js:1850-1853 | The view of rows is the one state with exactly their messages, each with its row's sign hash and deleted flag; so for the rebuilt rows. |
| `DialogViews.SameView` | src/store/dialogs.store.js:1617-1623 | Two sets of rows have one view if and only if they have the same messages with the same sign hashes and deleted flags. |
| `DialogCheckpoint.ComputeDialogFrontier` | src/store/dialogs.store.js:1634-1645 | The frontier is the tails of the rows; listed as undecryptable, in order, are exactly the messages whose refs cannot be read. |
| `DialogCheckpoint.CreateDialogCheckpoint` | src/store/dialogs.store.js:1654-1688 | Made exactly when everything is admitted, nothing waits and all refs are readable; it then attests the frontier of the current rows and the view that has each of them at its revision, tombstones deleted. |
| `DialogCheckpoint.CompareDialogCheckpoint` | src/store/dialogs.store.js:1768-1805 | Without the carrier message: the view is judged exactly if version, reducer and tree version are this build's; the history is equal if and only if the roots of all rows' frontiers are, the view if and only if the root of the admitted rows is the signed one, and the verdict follows the table. |
| `DialogViews.CurrentReachable` | src/store/dialogs.store.js:1807-1814 | In a closed, acyclic history every current revision is reachable from the tails. |
| `DialogViews.SameFrontierSameViewBeside` | src/store/dialogs.store.js:1771-1779 | With messages the signed history does not have left out of a later one, such as the carrier that later rows cite: if the frontiers agree, so do the views, or one sign hash names two rows. Only the rows compared need be admitted, by a gate whose admitted rows cite admitted rows; what else is held may wait for what has not arrived. |
| `DialogViews.SameFrontierSameView` | src/store/dialogs.store.js:1794-1796 | Two closed, acyclic histories whose current rows are the strictly newest, with one frontier, have one view; or one sign hash names two rows. |
| `DialogCheckpoint.EqualFrontierRootSameViewRoot` | src/store/dialogs.store.js:1789-1796 | So for the roots: a later history with the signed frontier root, the carrier left out, has the signed view root over all of its rows, if those compared are admitted; short of a collision. |
| `DialogCheckpoint.VerdictMeans` | src/store/dialogs.store.js:1768-1796 | Each verdict read off the rows, whatever else waits on the comparing device, short of a collision: histories equal or not, and, if equal, all rows compared admitted (EXACT_MATCH) or not (INCONSISTENT_VIEW); if not, views equal or not. |
| `DialogCheckpoint.InconsistentIffUnadmitted` | src/lib/data/checkpointComparison.ts:42-47 | Comparing with the carrier left out, as every caller does, gives INCONSISTENT_VIEW if and only if the histories are equal and a row compared is not admitted, for whatever reason it is not, an ancestor that has not arrived included; short of a collision. |
| `DialogCheckpoint.SignedRowNotYetAdmitted` | src/store/dialogs.store.js:1794-1796 | A signed dialog of one message, compared with itself and its carrier while neither is admitted, gives INCONSISTENT_VIEW, short of a collision. |
| `DialogCheckpoint.WaitingRowNotYetAdmitted` | packages/pq-client/src/dialogDag.ts:62-69 | So does a signed dialog of two messages where only the second and the carrier have arrived, and wait for the first. |
| `DialogViews.TiesAllowTwoViews` | src/store/dialogs.store.js:1794-1796 | Without strictness they may differ: two closed histories with tied timestamps share a frontier and show different views. |
| `DialogCheckpoint.EqualRootSameView` | src/store/dialogs.store.js:1785-1787 | A matching view root means the signed view, or the two trees collide. |
| `CheckpointWorklist.PushCitations` | src/store/dialogs.store.js:1844-1846 | A visited revision queues its parent under its own message, its readable refs under the messages they name, and nothing else. |
| `CheckpointWorklist.Visit` | src/store/dialogs.store.js:1839-1846 | An unknown revision is reported with the message it was cited under; a known one queues what it cites and replaces an older best of its message. |
| `CheckpointWorklist.VisitKeepsProgress` | src/store/dialogs.store.js:1836-1847 | One visit keeps the search invariant: what is visited or queued is reachable and closed under citation, every pointer is a citation of a visited revision or an entry of the frontier, missing and best are right. |
| `CheckpointWorklist.Closure` | src/store/dialogs.store.js:1832-1847 | The worklist terminates, visits exactly what is reachable from the frontier, through parents and refs, reports missing exactly what is reachable and unknown, each once and under a message it is cited by, and keeps per message a reachable revision of greatest timestamp. |
| `CheckpointWorklist.OrderCannotShow` | src/store/dialogs.store.js:1836-1847 | Two runs with any pop orders agree on what is missing and on the best timestamps, and on the best revisions unless timestamps tie. |
| `DialogViews.RebuiltIsSigned` | src/store/dialogs.store.js:1807-1814 | From a store that still holds the history, nothing is missing and the rebuilt state is the one that was signed. |
| `DialogCheckpoint.DiffDialogCheckpoint` | src/store/dialogs.store.js:1815-1862 | Refuses exactly foreign versions, and a rebuilt message id the tree does not take; reports what is missing; or gives the current frontier and, between the state of the rebuilt rows and that of the admitted ones, what became of every message, short of a collision. |
| `CausalGate.RevisionKeyInjective` | packages/pq-client/src/dialogDag.ts:33 | A key names one revision, as the wire grammar has no bar in a message id. |
| `CausalGate.ValidateRefs` | packages/pq-client/src/dialogDag.ts:35-71 | Each verdict holds exactly under its condition, with the lists of what is missing or blocked; a row citing nothing is admitted. |
| `CausalGate.UnadmittedMembers` | packages/pq-client/src/dialogDag.ts:62-69 | The waiting list holds exactly the cited revisions that are neither admitted nor terminal, the blocked list exactly those not admitted and terminal. |
| `CausalGate.Gate.Deliver` | packages/pq-client/src/dialogDag.ts:10-20 | Taking a row in re-checks the waiting ones until none can be decided; admitted and terminal sets only grow. |
| `CausalGate.Gate.Settle` | packages/pq-client/src/dialogDag.ts:66-70 | Afterwards every waiting row is one that neither set decides. |
| `CausalGate.OrderIndependent` | packages/pq-client/src/dialogDag.ts:14-17 | Two gates given the same rows in any two orders end with the same admitted and terminal sets. |
| `CausalGate.AdmittedClosed` | packages/pq-client/src/dialogDag.ts:7-9 | What is admitted cites only what is admitted, never itself, and is not terminal. |
| `CausalGate.RootsAdmitted` | packages/pq-client/src/dialogDag.ts:10-17 | Every valid row with an empty map is admitted, however many there are. |
| `VaultStore.Device.LoadLocalUserCards` | src/libs/EncryptionManagerPQ.js:1097-1128 | A registry that cannot be read counts as empty; a card whose marks cannot be read is shown as it is; else a card marked failed is replaced by the one before it, or left out. When no step fails everything is read. |
| `VaultStore.Device.FailedRestoreMark` | src/libs/EncryptionManagerPQ.js:1109-1118 | The leftover mark, or else the pending one if it says failed; none when either read needed fails. |
| `VaultStore.LoadsFailedIff` | src/libs/EncryptionManagerPQ.js:1109-1128 | On any disk, a session has a card marked failed if and only if its mark could not be read or another failed mark, that was read, puts it back. |
| `VaultStore.ShowsFailedIffUnread` | src/libs/EncryptionManagerPQ.js:1109-1128 | Where no mark puts back a failed card, a session has one exactly if it is registered and its mark could not be read. |
| `VaultStore.NeverShowsFailed` | src/libs/EncryptionManagerPQ.js:1120-1128 | With the marks read, and none that puts back a failed card, no card marked failed is shown. |
| `VaultStore.LoadedKeeps` | src/libs/EncryptionManagerPQ.js:1120-1128 | A card with no failed mark is always shown. |
| `VaultStore.Device.ClearAccountVault` | src/libs/EncryptionManagerPQ.js:1034-1053 | Touches nothing but what is kept for the vault, and when it succeeds leaves nothing of it; a step may fail, or the device stop, anywhere, and if none does it succeeds. |
| `PasskeyRotation.LosersAreUnnamed` | src/libs/EncryptionManagerPQ.js:280-288 | Recovery never clears a vault that a card of the registry names. |
| `PasskeyRotation.MarkerGoesIff` | src/libs/EncryptionManagerPQ.js:276-288 | Recovery acts on a marker if and only if none of its fields is empty, its account's card names one of its two vaults, and the other one is neither open nor named by another account's card. |
| `PasskeyRotation.ClearOneRotation` | src/libs/EncryptionManagerPQ.js:276-296 | A marker goes only after the vault it lets recovery clear. |
| `PasskeyRotation.ClearPasskeyRotations` | src/libs/EncryptionManagerPQ.js:271-298 | Whatever fails and wherever it stops, what recovery changed is part of what Recovered changes; when no step fails it is all of it. It counts the markers it leaves. |
| `PasskeyRotation.RecoveryResumes` | src/libs/EncryptionManagerPQ.js:271-298 | Run again after stopping anywhere, recovery ends where one unbroken run ends. |
| `PasskeyRotation.RecoveryIdempotent` | src/libs/EncryptionManagerPQ.js:271-298 | Recovering twice is recovering once. |
| `PasskeyRotation.RecoveryKeepsSound` | src/libs/EncryptionManagerPQ.js:271-298 | At every moment of a recovery every account stands: its card names a present vault with a lock record and all entries. |
| `PasskeyRotation.CopyEntries` | src/libs/EncryptionManagerPQ.js:326-330 | Whatever the vault made of a value, the copy is accepted only when it equals the old vault; it is accepted if every value was stored as it was and no step failed. |
| `PasskeyRotation.FillNewVault` | src/libs/EncryptionManagerPQ.js:319-332 | Up to the owner record only the new vault is touched; at its end it holds the old entries, the new credential, another than the old one, and its owner. When no step fails it succeeds exactly if the credentials differ. |
| `PasskeyRotation.CommitRotation` | src/libs/EncryptionManagerPQ.js:318-361 | Every stop is before the commit, with the old vault named and the new one marked, or after it, with the new one complete, locked by the new credential and named, and the marker outliving the old. When no step fails it succeeds exactly if the credentials differ. |
| `PasskeyRotation.CommitChangesOneVault` | src/libs/EncryptionManagerPQ.js:333-335 | The registry that commits a rotation has every card in its place, as loaded but for the vault that the account's card names. |
| `PasskeyRotation.OwnCard` | src/libs/EncryptionManagerPQ.js:311-316 | When no step fails, the rotation is refused before its marker exactly if the registry no longer has the account on the vault that is open. |
| `PasskeyRotation.RotateVaultPasskey` | src/libs/EncryptionManagerPQ.js:304-361 | Stopped at any step, by error or crash, every account stands; an error leaves the registry as it was; success leaves the new vault named, open and locked by a credential other than the old one. When no step fails it succeeds exactly if the registry has the account on the open vault and the credentials differ, and else leaves what recovery left. |
| `PasskeyRotation.RotationIsSafe` | src/libs/EncryptionManagerPQ.js:304-361 | At every such stop the account stands on one of its two vaults. |
| `PasskeyRotation.RecoveryEndsRotation` | src/libs/EncryptionManagerPQ.js:271-298 | Recovery then leaves exactly the vault the registry names, and no marker of the rotation. |
| `PasskeyRotation.OlderMarkersAreStranded` | src/libs/EncryptionManagerPQ.js:281-287 | A marker of an older rotation can never be acted on once a newer one commits: none of the account is left in the end if and only if the opening recovery had left none. |
| `PasskeyRotation.FailedClearingStrands` | src/libs/EncryptionManagerPQ.js:281-287 | Such markers arise: a rotation that commits and fails to clear leaves its marker, the next one may start from there, and once it commits the marker stays. |
| `PasskeyRestore.ClearUnused` | src/libs/EncryptionManagerPQ.js:1433-1443 | One clearing keeps what is shown, and every mark it drops goes after its vault and card, whichever step fails; if none does it succeeds. |
| `PasskeyRestore.ClearOneLeftover` | src/libs/EncryptionManagerPQ.js:1418-1443 | For each branch of the loop body: a dropped mark is settled, or it is the pending mark of a vault in use that could not be read; with the mark read, the same is shown. When no step fails the vault is left waiting exactly if it is in use and marked failed. |
| `PasskeyRestore.ClearRestoreLeftovers` | src/libs/EncryptionManagerPQ.js:1411-1445 | Whatever fails, reads included: only marked vaults no loaded card names are touched, and a mark goes only when its vault and card are gone, its restore stands, or it is the pending one of a vault in use and was not read. With all read, and no mark that puts back a failed card, the same cards are shown; with all written, it computes Cleaned. |
| `PasskeyRestore.UnreadRegistryIsForgotten` | src/libs/EncryptionManagerPQ.js:1098-1106 | If the registry cannot be read when cards are loaded, clearing writes an empty registry if and only if the registry names a marked vault that is not open. |
| `PasskeyRestore.UnreadMarkIsDropped` | src/libs/EncryptionManagerPQ.js:1109-1118 | A vault in use keeps its pending mark if and only if a mark says its restore failed and that mark could be read. |
| `PasskeyRestore.PutBackUndoes` | src/libs/EncryptionManagerPQ.js:1389-1395 | Putting the account entry back undoes putting it in, and changes nothing where it was not put in. |
| `PasskeyRestore.ShownWhileRestoring` | src/libs/EncryptionManagerPQ.js:1120-1128 | What is shown at every moment of a restore, whatever its loading could read: while the registry names the new card, that one in the place of the loaded one, or, marked failed, the loaded one again, whose own mark is then not looked at; else the cards of before, or those loaded if they were written back. |
| `PasskeyRestore.RestoredShownIff` | src/libs/EncryptionManagerPQ.js:1120-1128 | The new card is shown exactly while the registry names it and no mark says its restore failed. |
| `PasskeyRestore.FailedShownIff` | src/libs/EncryptionManagerPQ.js:1109-1128 | A card marked failed is shown during or after a restore, with every mark read then, if and only if the registry names the restored card, its restore is marked failed, and the loading had taken the account's card from a vault whose failed mark it could not read. |
| `PasskeyRestore.SanityLostIff` | src/libs/EncryptionManagerPQ.js:1334-1336 | A restore leaves a mark that puts back a failed card if and only if it has a mark on disk itself and its loading had taken the account's card in spite of its failed mark. |
| `PasskeyRestore.UnreadMarkShowsFailed` | src/libs/EncryptionManagerPQ.js:1109-1118 | That happens: an import that cannot read the mark of a failed card, and fails in its turn, ends on a disk that shows the failed card, where before none was shown. |
| `PasskeyRestore.ShownWhenRead` | src/libs/EncryptionManagerPQ.js:1120-1128 | With every mark read the cards of before are shown, or those with the restored one, and no mark comes to put back a failed card. |
| `PasskeyRestore.WriteKeys` | src/libs/EncryptionManagerPQ.js:1448-1459 | When it ends every key of the backup is in the vault, and nothing else has changed; it ends so if no step fails. |
| `PasskeyRestore.WriteImportedAccount` | src/libs/EncryptionManagerPQ.js:1447-1473 | The registry never names the new vault before every key is in it; when no step fails it then does, and the vault has its owner. |
| `PasskeyRestore.UndoRestore` | src/libs/EncryptionManagerPQ.js:1372-1405 | The failed card stays shown if and only if neither mark nor the old registry could be written. When no step fails, none is counted, and the disk is as it was found, but for the registry, which is the list that was loaded: an empty one if the registry could not be read, one without the cards that failed marks hide. |
| `PasskeyRestore.ImportVaultKeys` | src/libs/EncryptionManagerPQ.js:1304-1370 | On every disk an import can leave, and whatever fails, reads included: the disk is what a clearing left, with what the restore writes of the cards it loaded, and shows what those say; an account that is already here is refused untouched, and so is a backup without the EVM or the contact key. Any other is restored when no step fails. The restored card is shown only over a vault holding every key, except after an undo that could write nothing; after success it is shown if and only if the registry write was done. If everything is read, and no mark put back a failed card, the other cards are those of before. |
| `PasskeyRestore.OthersForgottenIff` | src/libs/EncryptionManagerPQ.js:1098-1106 | An import forgets other accounts' cards if and only if it could not read the registry, has written it since, and there was another card. |
| `PasskeyRestore.ClearingKeepsAccounts` | src/libs/EncryptionManagerPQ.js:1411-1445 | At every moment of a clearing that could read the registry every account still stands, whichever marks could be read or put back a failed card. |
| `PasskeyRestore.RestoringKeepsAccounts` | src/libs/EncryptionManagerPQ.js:1447-1473 | At every moment of a restore that could read the registry every other account still stands, whichever marks could be read or put back a failed card. |
| `PasskeyRestore.ImportKeepsAccounts` | src/libs/EncryptionManagerPQ.js:1304-1370 | Both together, as the contract of the import gives them: at every moment of an import whose registry reads succeed every account stands. |
| `ContactEdits.TakeBack` | src/store/userPQ.store.js:411-421 | The loop over the failed edit: each contact goes back to the next newer edit still out, or to the screen, or nowhere. |
| `ContactEdits.WantedAfterFailure` | src/store/userPQ.store.js:400-404 | What a contact should show after a failure changes only where no live edit came after, and to what it showed before. |
| `ContactEdits.FailureKeepsInv` | src/store/userPQ.store.js:411-421 | Taking back keeps the invariant: each contact shows its newest edit that has not failed, and each edit still out remembers what was right before it. |
| `ContactEdits.AcceptanceKeepsInv` | src/store/userPQ.store.js:447-450 | Acceptance keeps the invariant with nothing shown changed. |
| `ContactEdits.EditKeepsInv` | src/store/userPQ.store.js:423-435 | A new edit keeps the invariant. |
| `ContactEdits.ContactsStore.Begin` | src/store/userPQ.store.js:423-436 | An edit shows at once: null deletes a contact, anything else is merged onto what it showed, no other changes; it is remembered with what it replaced, and is out. |
| `ContactEdits.ContactsStore.Fail` | src/store/userPQ.store.js:442-446 | A failure in the same session leaves every contact showing what it should without the edit; one of an ended session changes nothing shown. |
| `ContactEdits.ContactsStore.Accept` | src/store/userPQ.store.js:447-454 | An accepted edit that is not the newest changes nothing shown. The answer to the newest one replaces the map: with no older edit out that is right again; with one, it is right if and only if it changes nothing. |
| `ContactEdits.ReplacementIsRightIff` | src/store/userPQ.store.js:451-454 | If the answer is the server's list, without the edits still out, replacing is right if and only if none of those is the newest of its contact with another value; so it is when the server has taken a newer edit of every contact they touch. |
| `ContactEdits.ContactsStore.Logout` | src/store/userPQ.store.js:223-235 | A new session, with nothing shown and nothing out. |
| `ContactEdits.AnyRun` | src/store/userPQ.store.js:400-455 | The invariant holds after any interleaving of edits, acceptances, failures and sign-outs, but for the one acceptance that cannot keep it: of the newest edit while older ones are out, with an answer that changes the screen. |
| `ContentParts.QuoteSnapshot` | packages/pq-client/src/content.ts:462-463 | A snapshot holds only kinds that may be repeated. |
| `ContentParts.Quotable` | packages/pq-client/src/content.ts:451-460 | What stands for a part in a quote is of a kind that may be repeated. |
| `ContentQuotes.KindsRead` | packages/pq-client/src/content.ts:416-434 | The words that stand for each recovery and photo part, whatever its fields. |
| `ContentQuotes.OthersRead` | packages/pq-client/src/content.ts:457-458 | An inline image is named by its name, an unknown part by its type, a control part not at all. |
| `ContentQuotes.CopiedRead` | packages/pq-client/src/content.ts:440-452 | Text, quotes, files, images, videos and checkpoints are repeated as they are. |
| `ContentQuotes.QuoteTellsNames` | packages/pq-client/src/content.ts:444-459 | A quote tells two parts it does not copy apart if and only if they differ in kind or, unknown, in type: no field shows. |
| `ContentQuotes.ImagesApart` | packages/pq-client/src/content.ts:457 | And two inline images if and only if their names differ. |
| `ContentQuotes.QuotesKeepSecrets` | packages/pq-client/src/content.ts:444-469 | At every depth: messages that differ, inside quotes, only in fields of parts that are not copied encode to the same JSON. |
| `ContentParts.SnapshotHeight` | packages/pq-client/src/content.ts:462-469 | Making a snapshot safe does not deepen it: the measure of the encoder. |
| `ContentParts.SanitisingIsIdempotent` | packages/pq-client/src/content.ts:444-463 | Making the quotes of a message safe twice is doing it once. |
| `ContentParts.SanitisedIsSafe` | packages/pq-client/src/content.ts:444-463 | After it every quote, however deep, holds only kinds that may be repeated. |
| `ContentCodec.EncodedEach` | packages/pq-client/src/content.ts:465-468 | A list is refused if and only if one of its parts is, and else holds every part's element in order. |
| `ContentRoundTrip.PhotosComeBack` | packages/pq-client/src/content.ts:622-633 | Of all parts written, photoFromWire takes exactly the images and inline images, each as it was. |
| `ContentRoundTrip.TolerantTypes` | packages/pq-client/src/content.ts:513-520 | Unknown types, photo messages and gallery access never make decoding throw: what cannot be read is kept as it came. |
| `ContentRoundTrip.SecondsAreNearest` | packages/pq-client/src/content.ts:542 | A duration is read as the nearest whole number of seconds, halves up, and never below 0. |
| `ContentRoundTrip.TailFollows` | packages/pq-client/src/content.ts:666-667 | The known positions stay in place and the tail comes back as it was. |
| `ContentRoundTrip.MediaRoundTrip` | packages/pq-client/src/content.ts:611-619 | The shared head of a picture comes back, for aspects that are finite and not 0. |
| `ContentRoundTrip.ShareTailRoundTrip` | packages/pq-client/src/content.ts:689-697 | Proof, node set or its absence, and newer positions come back. |
| `ContentRoundTrip.FlatRoundTrip` | packages/pq-client/src/content.ts:321-409 | Every kind but quotes and avatars comes back as it was, unknown types included. |
| `ContentRoundTrip.AvatarRoundTrip` | packages/pq-client/src/content.ts:653-657 | A profile photo message comes back with its photo. |
| `ContentRoundTrip.PartRoundTrip` | packages/pq-client/src/content.ts:476-608 | Decoding an encoded part gives it back, its quotes made safe at every depth. |
| `ContentRoundTrip.ContentRoundTrips` | packages/pq-client/src/content.ts:471-474 | So for whole messages; the empty one comes back as one empty text. |
| `ContentRoundTrip.DecodedFits` | packages/pq-client/src/content.ts:476-608 | Whatever JSON decodes, with numbers JSON can write, decodes to parts the round trip speaks of. |
| `ContentRoundTrip.ReencodingLosesNothing` | packages/pq-client/src/content.ts:25-27 | So reading and writing again changes only what quotes may not carry. |
| `ContentSafety.ContentIsSafe` | packages/pq-client/src/content.ts:444-463 | A snapshot on the wire holds, at any depth, only text, quote, file, image, video and checkpoint elements, if and only if no part encoded is an unknown one of type "quote" that holds something else. |
| `ContentSafety.ReceivedIsSafeToWrite` | packages/pq-client/src/content.ts:444-463 | No decoded part is such a one: whatever was received and is written again is safe. |
| `Blowfish.EncipherBlock` | src/libs/blowfish.js:360-368 | The loop computes Encipher. |
| `Blowfish.DecipherBlock` | src/libs/blowfish.js:370-378 | The loop computes Decipher. |
| `Blowfish.CipherInverts` | src/libs/blowfish.js:360-378 | For every key and block each undoes the other. |
| `Blowfish.CipherIsTextbook` | src/libs/blowfish.js:351-368 | The unrolled loop equals sixteen textbook rounds that exchange the halves. |
| `BlowfishWords.EveryKeyIsLawful` | src/libs/blowfish.js:351-359 | Every 18 words of P and any four S-boxes make a key the theorems speak of, on 32-bit words of four octets. |
| `BlowfishWords.WordIsSum` | src/libs/blowfish.js:351-359 | A word is its four octets, the first the highest. |
| `BlowfishWords.MixOfOctets` | src/libs/blowfish.js:351-359 | The highest octet goes to the first box, and so on down. |
| `BlowfishWords.CombineIsSum` | src/libs/blowfish.js:351-359 | The four words are joined as the last plus the exclusive or of the third with the sum of the first two, on 32 bits. |
| `BlowfishWords.BlowfishInverts` | src/libs/blowfish.js:351-503 | For every key all of it at once: blocks, ECB, CBC, CFB and OFB. |
| `CipherModes.EcbCipher` | src/libs/blowfish.js:380-394 | The loop computes ECB on whole blocks and refuses any other length. |
| `CipherModes.CbcCipher` | src/libs/blowfish.js:396-431 | The two loops compute CBC on whole blocks with an 8-byte vector, and refuse anything else. |
| `CipherModes.CfbCipher` | src/libs/blowfish.js:433-474 | The two loops, in place on a filled copy, compute CFB cut to the length of the data. |
| `CipherModes.OfbCipher` | src/libs/blowfish.js:476-503 | The loop, in place on a filled copy, computes OFB cut to the length of the data. |
| `CipherModes.EcbBlock` | src/libs/blowfish.js:380-394 | Each block of the result is that of the data enciphered, or deciphered, by itself. |
| `CipherModes.CbcEncryptedBlock` | src/libs/blowfish.js:396-413 | Each block of the result is the enciphered exclusive or of that of the data with the result's block before it, the vector at first. |
| `CipherModes.CbcDecryptedBlock` | src/libs/blowfish.js:414-431 | And back: the deciphered block of the data, with the data's block before it. |
| `CipherModes.CfbEncryptedOctet` | src/libs/blowfish.js:433-474 | Each octet of the result, in a cut last block too, is that of the data under the enciphered block of the result before it. |
| `CipherModes.CfbDecryptedOctet` | src/libs/blowfish.js:433-474 | And back, under that of the data. |
| `CipherModes.EcbAndCbcInvert` | src/libs/blowfish.js:380-431 | ECB and CBC decryption invert encryption on every buffer they accept. |
| `CipherModes.CfbInverts` | src/libs/blowfish.js:433-474 | CFB decryption inverts encryption on every buffer, the cut last block included. |
| `CipherModes.OfbInverts` | src/libs/blowfish.js:476-503 | OFB is its own inverse on every buffer. |
| `CipherModes.OfbOctet` | src/libs/blowfish.js:489-496 | Every octet is that of the data under a stream which does not depend on the data. |
| `VideoRange.GroupsOf` | packages/pq-client/src/videoRange.ts:18-21 | The expression matches digits, a dash and digits, with those as its groups. |
| `VideoRange.GroupsOnly` | packages/pq-client/src/videoRange.ts:18-21 | And nothing else. |
| `VideoRange.ParsedAsNamed` | packages/pq-client/src/videoRange.ts:16-35 | On a non-empty file a header is accepted if and only if it names some byte (section 14.1.2 of RFC 9110), and the range holds exactly the bytes it names. |
| `VideoRange.EmptyFileRange` | packages/pq-client/src/videoRange.ts:23-28 | On an empty file exactly the suffix ranges of a positive length are accepted, with an end before the start. |
| `VideoRange.PlanServes` | packages/pq-client/src/videoRange.ts:52-68 | The part served starts where the range does, stays inside, takes at most the capped chunks, and stops early only at the end of exactly that many. |
| `VideoStream.ChunkHasPlainSize` | packages/pq-client/src/videoRange.ts:71-74 | chunkPlainSize is the length of the chunk, which is not empty. |
| `VideoStream.Session.Lookup` | src/sw.js:127-132 | A hit gives the chunk of the file and becomes the youngest entry; a miss changes nothing. |
| `VideoStream.Session.Insert` | src/sw.js:156-159 | The chunk goes in and the oldest go out; every entry is still the chunk it stands for. |
| `VideoStream.Session.GetChunk` | src/sw.js:126-161 | Whatever other requests do meanwhile, the answer is that chunk, and the cache stays right; it fails only if the fetch does. |
| `VideoStream.RangeStream.Pull` | src/sw.js:168-183 | Each pull gives the next bytes, at least one, up to the end of their chunk or of the range. |
| `VideoStream.StreamRange` | src/sw.js:168-184 | What is emitted is the bytes of the range from its start; a stream gives all of them, one chunk a pull, unless a fetch fails. |
| `VideoStream.Serve` | src/sw.js:196-219 | Unless a fetch fails, the body of a response is its range, as long as Content-Length says, from at most four chunks for a partial one. |
| `VideoStream.RespondServesAsked` | src/sw.js:196-213 | Without a range that is taken the whole file is answered with 200; with one, 206 and a part that starts where it does and runs to its end, or through exactly four chunks. |
| `VideoStream.AskingAgainCoversAll` | packages/pq-client/src/videoRange.ts:38-44 | Asking again from the next byte, with the same last byte or with none: the answers together are the range, nothing twice. |
| `VideoStream.CacheHoldsMostRecent` | src/sw.js:126-161 | Without interleaving the cache holds, oldest first, the eight chunks accessed most recently. |
| `Base64.PaddingRestored` | packages/pq-client/src/signature.ts:43-56 | Padding is restored where it was stripped and not added twice. |
| `Base64.DigitIsInTable` | packages/pq-client/src/signature.ts:36-40 | The digits are those of table 1 of RFC 4648. |
| `Base64.QuadIsNumber` | packages/pq-client/src/signature.ts:36-40 | Three bytes and their four digits are one number. |
| `Base64.Base64RoundTrip` | packages/pq-client/src/signature.ts:36-59 | What was written in base64 (section 4 of RFC 4648) is read back, padded or not. |
| `Base64Lists.JoinedSameIff` | packages/pq-client/src/signature.ts:122-129 | Two binary lists have one joined text if and only if they are one list once every element of whole triples runs on into the next. |
| `Base64Lists.JoinedDeterminesPadded` | packages/pq-client/src/signature.ts:122-129 | Lists whose elements are not of whole triples, as 64-byte hashes are not, have one text only if they are equal. |
| `Base64Lists.BoundaryLost` | packages/pq-client/src/signature.ts:122-129 | Other lists may not: an element of whole triples and the next one read as their concatenation. |
| `Base64.FromHex` | packages/pq-client/src/signature.ts:65-69 | The loop fills the buffer with the pairs; a last single digit does nothing. |
| `Base64.HexBytesOfHex` | packages/pq-client/src/signature.ts:65-69 | Hex of bytes is read back as those bytes. |
| `SignaturePayload.FormEncodes` | packages/pq-client/src/signature.ts:87-98 | A binary value encodes to one text in all four forms. |
| `SignaturePayload.BuildPayload` | packages/pq-client/src/signature.ts:172-178 | The payload depends on the fields alone, not on the order they were set in. |
| `SignaturePayload.PayloadDeterminesFields` | packages/pq-client/src/signature.ts:12-16 | Rows with the same columns and one payload have the same encoded text in every signed column; what that text tells is the next rows. |
| `SignedValues.TextFieldIsItself` | packages/pq-client/src/signature.ts:131-137 | A column that is neither binary nor a hash is signed as the text it holds, and no two texts alike. |
| `SignedValues.HashFieldIsHash` | packages/pq-client/src/signature.ts:105-118 | A hash column is signed as the prefixed hash it holds, or as missing; anything else, an empty text too, is refused. |
| `SignedValues.TextsSameIff` | packages/pq-client/src/signature.ts:100-139 | Two values of one column have one text if and only if they are equal, or lists that differ only in where elements of whole triples end, or one is missing and the other reads as null. |
| `SignedValues.PayloadTellsValues` | packages/pq-client/src/signature.ts:12-16 | Two coerced rows of one schema share a payload if and only if each column but the signature and its hash holds values that read alike: texts, numbers, booleans and bytes equal, but for a missing value against the text "null" or the three bytes. |
| `SignedValues.NamesConventional` | packages/pq-client/src/schema.generated.ts:11-60 | Columns named with a suffix are binary or hashes as its theorems ask; other names are neither. |
| `SignaturePayload.SameTextSameField` | packages/pq-client/src/signature.ts:150-153 | Texts with the same UTF-8 are the same text, unless a surrogate is unpaired. |
| `SignaturePayload.BuildSignable` | packages/pq-client/src/schema.ts:52-65 | The object filled column by column is the coerced row, or null exactly when a column is absent. |
| `SignaturePayload.BoolIsRead` | packages/pq-client/src/schema.ts:25-26 | A boolean column is true exactly for true, 1, '1', 't' and 'true'. |
| `SignaturePayload.OthersAreRead` | packages/pq-client/src/schema.ts:35-44 | A missing value stays missing, an integer is read from its digits, and texts, bytes and lists are taken as they come. |
| `SignaturePayload.PayloadForgetsForms` | packages/pq-client/src/signature.ts:172-178 | The payload of a row is the same whatever forms its binary, boolean and integer columns, negative ones included, arrive in. |
| `SignaturePayload.BinaryFieldDetermined` | packages/pq-client/src/signature.ts:87-98 | Texts of a binary column are equal if and only if the bytes are. |
| `SignaturePayload.NullIsThreeBytes` | packages/pq-client/src/signature.ts:87-98 | A missing binary column has the text of the bytes 9E E9 65, and of no others. |
| `SignaturePayload.SignHashBinds` | packages/pq-client/src/signature.ts:215-216 | A version hash is the same for every form of the signature, and two signatures with one hash are one, or collide. |
| `SignedValues.SignHashIsPrefixed` | packages/pq-client/src/signature.ts:215-216 | What deriveSignHash gives is accepted where a hash column is signed. |

## Left out

- TrieProof.VerifyViewProof: steps that are null or not objects, and proofs that are not arrays, are refused before anything else and have no counterpart in the step type.
- ViewCommitment.RootBinding: sign hashes with unpaired surrogates are excluded, since they do collide (`ViewCommitment.IllFormedViewsShareRoot`); lengths and bits stay below 2^32.
- TrieBuild.BuildViewTree: keys that no bit tells apart are a precondition, since the code does not end on them.
- DialogCheckpoint.ComputeDialogFrontier: `computeTails` is not part of this model; it is read as the revisions that no other given one cites by its exact pair.
- DialogCheckpoint.CreateDialogCheckpoint: sending the carrier message, the session pin and the saved pointer are not modelled.
- DialogCheckpoint.DiffDialogCheckpoint: admission of rows is a given verdict; message ids of known rows are asked to be told apart by some bit, as the trie needs.
- CausalGate.Gate.Deliver: of the gate that retries waiting rows it is assumed that it checks them again whenever a set grows.
- VaultStore.Device.Write: a step that throws is taken to have had no effect; another tab writing the same keys meanwhile is not modelled (the restore lock is assumed held).
- VaultStore.Card: public keys, lock kinds and storage fields of a card are not modelled; legacy vaults and imports into an existing vault neither.
- PasskeyRotation.FillNewVault: the passkey ceremony is any step that may throw; a session that ends after the second check and before the registry write is not modelled.
- PasskeyRestore.WriteKeys: values are taken to be stored as written; only rotation reads its copy back.
- PasskeyRestore.ImportVaultKeys: checking that the keys of a backup belong together is any step that may throw; publishing the card is any step that may throw or be deferred; a vault row left by a failed creation, which no mark names, is not tracked.
- ContactEdits.ReplacementIsRightIff: an edit the server takes is read as leaving what it showed, though the server merges it onto its own list.
- ContactEdits.ContactsStore.Accept: the loading of contacts while edits are out is not modelled.
- ContentCodec.DecodeValue: which error is thrown is not told apart, and JSON.parse and JSON.stringify are taken to be inverse on finite numbers; conversions of values that are not plain are any functions.
- ContentParts.Part: what a reader adds to a received reference is never written and is not modelled; previews and labels for display neither.
- Blowfish.EncipherBlock: the S-boxes and P are any tables; key expansion is not modelled.
- VideoStream.Session.GetChunk: fetching, tokens, hash checks and decryption are one step that may fail; a chunk that passes them is that part of the file.
- VideoRange.ParseRange: digits are read as numbers of any size; file sizes are below 2^53, so rounding cannot show.
- SignaturePayload.EncodeField: numbers are integers below 10^21 that a double holds, as numbers or in digits, or arrive with the text they print as; signing and verifying themselves are not modelled.
- SignedValues.PayloadTellsValues: speaks of integer columns that hold integers; texts are well formed, hash columns hold prefixed hashes or nothing, and no text reaches 2^32 bytes.
- Cryptographic primitives, WebAuthn, IndexedDB, locks, timers and network: any functions, or steps that may fail.
- Key derivation, handshake, device links, vault envelopes and slot ids.
- Transfers, recovery stores, the outbox and the remaining dialog store: they rest on modules that are not part of this model.
- User interface, router and build files: nothing to prove.
