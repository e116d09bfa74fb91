/** Creating a dialog checkpoint, comparing it with the current state, and diffing against it. */
module DialogCheckpoint {
  import opened Prelude
  import opened JsText
  import opened Records
  import opened Framing
  import opened Bits
  import opened ViewTrie
  import opened ViewCommitment
  import opened TrieBuild
  import opened TrieDiff
  import opened Frontier
  import opened DialogRows
  import opened CheckpointWorklist
  import opened DialogViews
  import opened WireGrammar

  // ---------- the wire grammar ----------

  lemma {:induction false} WireIdIsTreeKey(s: JsString)
    requires IsWireMessageId(s)
    ensures TreeKey(s) && 0 !in s
  {
    forall i | 0 <= i < |s|
      ensures 0 < s[i] < 0x80
    {
      if i < 5 {
        assert s[i] == s[..5][i] == Ascii("dmsg_")[i];
      }
    }
  }

  // ---------- computeDialogViewState and computeDialogFrontier ----------

  /** A current row with the verdict of its admission. */
  datatype Candidate = Candidate(row: Row, admitted: bool)

  predicate Counts(c: Candidate) {
    IsWireMessageId(c.row.messageId) && c.admitted
  }

  function AdmittedRows(cs: seq<Candidate>): map<JsString, Row> {
    if cs == [] then map[]
    else
      var rest, c := AdmittedRows(cs[..|cs| - 1]), cs[|cs| - 1];
      if Counts(c) then rest[c.row.messageId := c.row] else rest
  }

  function Unadmitted(cs: seq<Candidate>): seq<JsString> {
    if cs == [] then []
    else Unadmitted(cs[..|cs| - 1]) + (if Counts(cs[|cs| - 1]) then [] else [cs[|cs| - 1].row.messageId])
  }

  /** The current rows as one record per message, admitted or not. */
  function RowsOf(cs: seq<Candidate>): map<JsString, Row> {
    if cs == [] then map[]
    else RowsOf(cs[..|cs| - 1])[cs[|cs| - 1].row.messageId := cs[|cs| - 1].row]
  }

  lemma {:induction false} AllAdmitted(cs: seq<Candidate>)
    ensures Unadmitted(cs) == [] <==> forall i :: 0 <= i < |cs| ==> Counts(cs[i])
    ensures Unadmitted(cs) == [] ==> AdmittedRows(cs) == RowsOf(cs)
  {
    if cs != [] {
      var rest := cs[..|cs| - 1];
      AllAdmitted(rest);
      assert forall i :: 0 <= i < |rest| ==> rest[i] == cs[i];
    }
  }

  lemma {:induction false} AdmittedAreWire(cs: seq<Candidate>)
    ensures forall m :: m in AdmittedRows(cs) ==> IsWireMessageId(m) && AdmittedRows(cs)[m].messageId == m
  {
    if cs != [] {
      AdmittedAreWire(cs[..|cs| - 1]);
    }
  }

  /** The collection of current rows is keyed by message. */
  ghost predicate OneRowEach(cs: seq<Candidate>) {
    forall i, j :: 0 <= i < j < |cs| ==> cs[i].row.messageId != cs[j].row.messageId
  }

  /** The state has each admitted row of a wire id at its revision, deleted if the row is, and no other message. */
  ghost predicate StateOf(s: ViewState, cs: seq<Candidate>) {
    && (forall c :: c in cs && c.admitted && IsWireMessageId(c.row.messageId) ==>
          c.row.messageId in s && s[c.row.messageId].signHash == c.row.signHash && s[c.row.messageId].deleted == c.row.deleted)
    && (forall m :: m in s ==> exists c :: c in cs && c.admitted && IsWireMessageId(m) && c.row.messageId == m)
  }

  lemma {:induction false} ViewIsState(cs: seq<Candidate>)
    requires OneRowEach(cs)
    ensures StateOf(ViewOf(AdmittedRows(cs)), cs)
  {
    ShowsOnlyView(ViewOf(AdmittedRows(cs)), AdmittedRows(cs));
    if cs != [] {
      var front, last := cs[..|cs| - 1], cs[|cs| - 1];
      ViewIsState(front);
      ShowsOnlyView(ViewOf(AdmittedRows(front)), AdmittedRows(front));
      assert cs == front + [last];
      assert forall c :: c in front ==> c.row.messageId != last.row.messageId;
    }
  }

  /** Listed is the message of every row that is not admitted, or not of the wire grammar. */
  ghost predicate ListsUnadmitted(ids: seq<JsString>, cs: seq<Candidate>) {
    forall m :: m in ids <==> exists c :: c in cs && c.row.messageId == m && !(c.admitted && IsWireMessageId(m))
  }

  lemma {:induction false} UnadmittedAre(cs: seq<Candidate>)
    ensures ListsUnadmitted(Unadmitted(cs), cs)
  {
    if cs != [] {
      var front, last := cs[..|cs| - 1], cs[|cs| - 1];
      UnadmittedAre(front);
      assert cs == front + [last];
    }
  }

  method ComputeDialogViewState(cs: seq<Candidate>) returns (state: ViewState, unadmitted: seq<JsString>)
    ensures state == ViewOf(AdmittedRows(cs)) && (OneRowEach(cs) ==> StateOf(state, cs))
    ensures unadmitted == Unadmitted(cs) && ListsUnadmitted(unadmitted, cs)
  {
    UnadmittedAre(cs);
    if OneRowEach(cs) {
      ViewIsState(cs);
    }
    state, unadmitted := map[], [];
    for i := 0 to |cs|
      invariant state == ViewOf(AdmittedRows(cs[..i]))
      invariant unadmitted == Unadmitted(cs[..i])
    {
      assert cs[..i + 1][..i] == cs[..i];
      var c := cs[i];
      if !IsWireMessageId(c.row.messageId) || !c.admitted {
        unadmitted := unadmitted + [c.row.messageId];
      } else {
        state := state[c.row.messageId := LeafValue(c.row.signHash, c.row.deleted)];
      }
    }
    assert cs[..|cs|] == cs;
  }

  /** The ids of the rows whose refs cannot be read, in order. */
  function Undecryptable(cs: seq<Candidate>): seq<JsString> {
    if cs == [] then []
    else
      var rest, c := Undecryptable(cs[..|cs| - 1]), cs[|cs| - 1];
      if c.row.refs.None? then rest + [c.row.messageId] else rest
  }

  ghost predicate ListsUndecryptable(ids: seq<JsString>, cs: seq<Candidate>) {
    forall m :: m in ids <==> exists c :: c in cs && c.row.messageId == m && c.row.refs.None?
  }

  lemma {:induction false} UndecryptableAre(cs: seq<Candidate>)
    ensures ListsUndecryptable(Undecryptable(cs), cs)
  {
    if cs != [] {
      var front, last := cs[..|cs| - 1], cs[|cs| - 1];
      UndecryptableAre(front);
      assert cs == front + [last];
    }
  }

  lemma {:induction false} AllDecryptable(cs: seq<Candidate>)
    ensures Undecryptable(cs) == [] <==> forall i :: 0 <= i < |cs| ==> cs[i].row.refs.Some?
  {
    if cs != [] {
      var rest := cs[..|cs| - 1];
      AllDecryptable(rest);
      assert forall i :: 0 <= i < |rest| ==> rest[i] == cs[i];
    }
  }

  method ComputeDialogFrontier(cs: seq<Candidate>) returns (frontier: map<JsString, JsString>, undecryptable: seq<JsString>)
    ensures frontier == Tails(RowsOf(cs))
    ensures undecryptable == Undecryptable(cs) && ListsUndecryptable(undecryptable, cs)
  {
    UndecryptableAre(cs);
    undecryptable := [];
    for i := 0 to |cs|
      invariant undecryptable == Undecryptable(cs[..i])
    {
      assert cs[..i + 1][..i] == cs[..i];
      if cs[i].row.refs.None? {
        undecryptable := undecryptable + [cs[i].row.messageId];
      }
    }
    assert cs[..|cs|] == cs;
    frontier := Tails(RowsOf(cs));
  }

  // ---------- roots ----------

  ghost predicate IsViewRoot(h: Hasher, root: JsString, s: ViewState) {
    exists vt :: IsViewTree(h, vt, s) && vt.root == root
  }

  lemma {:induction false} ViewRootUnique(h: Hasher, r: JsString, r': JsString, s: ViewState)
    requires IsViewRoot(h, r, s) && IsViewRoot(h, r', s)
    ensures r == r'
  {
    var v :| IsViewTree(h, v, s) && v.root == r;
    var w :| IsViewTree(h, w, s) && w.root == r';
    ViewTreeUnique(h, v, w, s);
  }

  lemma {:induction false} WireKeysDiverge(s: ViewState)
    requires forall k :: k in s ==> IsWireMessageId(k)
    ensures KeysDiverge(s.Keys) && forall k :: k in s ==> TreeKey(k)
  {
    forall k | k in s
      ensures TreeKey(k) && 0 !in k
    {
      WireIdIsTreeKey(k);
    }
    NulFreeKeysDiverge(s.Keys);
  }

  /** Wire ids always build: no TypeError, and the scan ends. */
  method BuildWireTree(h: Hasher, s: ViewState) returns (vt: ViewTree)
    requires forall k :: k in s ==> IsWireMessageId(k)
    ensures IsViewTree(h, vt, s)
  {
    WireKeysDiverge(s);
    var es := EntriesOf(s);
    var r := BuildViewTree(h, es);
    vt := r.value;
  }

  // ---------- creating ----------

  const CHECKPOINT_VERSION := 3
  const REDUCER_VERSION: Bytes := Ascii("dialog-state-v1")

  datatype CheckpointPart = CheckpointPart(
    version: int, reducerVersion: JsString, treeVersion: JsString,
    frontierRoot: JsString, viewRoot: JsString, frontier: map<JsString, JsString>)

  datatype Incomplete = IncompleteCausalHistory

  /** Everything admitted, nothing waiting, every refs blob readable. */
  ghost predicate FullyVerified(cs: seq<Candidate>, waiting: nat) {
    waiting == 0 && forall i :: 0 <= i < |cs| ==> Counts(cs[i]) && cs[i].row.refs.Some?
  }

  /** A checkpoint of the given current rows. */
  ghost predicate Attests(h: Hasher, part: CheckpointPart, rows: map<JsString, Row>) {
    && part.version == CHECKPOINT_VERSION && part.reducerVersion == REDUCER_VERSION && part.treeVersion == TREE_VERSION
    && part.frontier == Tails(rows) && part.frontierRoot == FrontierRoot(h, Tails(rows))
    && IsViewRoot(h, part.viewRoot, ViewOf(rows))
  }

  lemma {:induction false} VerifiedRows(cs: seq<Candidate>)
    requires forall i :: 0 <= i < |cs| ==> Counts(cs[i])
    ensures AdmittedRows(cs) == RowsOf(cs)
    ensures forall m :: m in RowsOf(cs) ==> IsWireMessageId(m)
  {
    AllAdmitted(cs);
    AdmittedAreWire(cs);
  }

  method MakePart(h: Hasher, rows: map<JsString, Row>) returns (part: CheckpointPart)
    requires forall m :: m in rows ==> IsWireMessageId(m)
    ensures Attests(h, part, rows)
  {
    var frontier := Tails(rows);
    var es := EntriesOf(frontier);
    var frontierRoot := DeriveFrontierRoot(h, es);
    var tree := BuildWireTree(h, ViewOf(rows));
    part := CheckpointPart(CHECKPOINT_VERSION, REDUCER_VERSION, TREE_VERSION, frontierRoot, tree.root, frontier);
  }

  /** The checkpoint attests the frontier and the view of the current rows, and that view has each at its revision. */
  ghost predicate MadeOf(h: Hasher, part: CheckpointPart, cs: seq<Candidate>) {
    Attests(h, part, RowsOf(cs)) && (OneRowEach(cs) ==> StateOf(ViewOf(RowsOf(cs)), cs))
  }

  lemma {:induction false} PartMadeOf(h: Hasher, part: CheckpointPart, cs: seq<Candidate>)
    requires Attests(h, part, RowsOf(cs)) && forall i :: 0 <= i < |cs| ==> Counts(cs[i])
    ensures MadeOf(h, part, cs)
  {
    AllAdmitted(cs);
    if OneRowEach(cs) {
      ViewIsState(cs);
    }
  }

  /** createDialogCheckpoint up to sending. Its second check, on the frontier's ids, never fires. */
  method CreateDialogCheckpoint(h: Hasher, cs: seq<Candidate>, waiting: nat) returns (r: Result<CheckpointPart, Incomplete>)
    ensures r.Ok? <==> FullyVerified(cs, waiting)
    ensures r.Ok? ==> MadeOf(h, r.value, cs) == true
  {
    var state, unadmitted := ComputeDialogViewState(cs);
    var frontier, undecryptable := ComputeDialogFrontier(cs);
    AllAdmitted(cs);
    AllDecryptable(cs);
    if |unadmitted| > 0 || waiting > 0 || |undecryptable| > 0 {
      return Err(IncompleteCausalHistory);
    }
    VerifiedRows(cs);
    if !(forall mid :: mid in frontier ==> IsWireMessageId(mid)) {
      return Err(IncompleteCausalHistory);
    }
    assert state == ViewOf(RowsOf(cs)) && frontier == Tails(RowsOf(cs));
    var part := MakePart(h, RowsOf(cs));
    PartMadeOf(h, part, cs);
    r := Ok(part);
  }

  // ---------- comparing ----------

  datatype Verdict = ViewUnverifiable | ExactMatch | HistoryChangedViewEqual | ViewChanged | InconsistentView

  function Judge(historyEqual: bool, viewEqual: Option<bool>): Verdict {
    if viewEqual.None? then ViewUnverifiable
    else if historyEqual && viewEqual.value then ExactMatch
    else if !historyEqual && viewEqual.value then HistoryChangedViewEqual
    else if !historyEqual then ViewChanged
    else InconsistentView
  }

  predicate VersionsEqual(part: CheckpointPart) {
    part.version == CHECKPOINT_VERSION && part.reducerVersion == REDUCER_VERSION && part.treeVersion == TREE_VERSION
  }

  /** The rows compared: all but the message that carries the checkpoint. */
  function Scoped(cs: seq<Candidate>, pointer: Option<JsString>): seq<Candidate> {
    if cs == [] then []
    else Scoped(cs[..|cs| - 1], pointer) + (if pointer == Some(cs[|cs| - 1].row.messageId) then [] else [cs[|cs| - 1]])
  }

  /** The message left out of a comparison. */
  function Carrier(pointer: Option<JsString>): set<JsString> {
    match pointer case None => {} case Some(c) => {c}
  }

  function Leaving(rows: map<JsString, Row>, pointer: Option<JsString>): map<JsString, Row> {
    rows - Carrier(pointer)
  }

  lemma {:induction false} LeavingMore(rows: map<JsString, Row>, r: Row, pointer: Option<JsString>)
    ensures Leaving(rows[r.messageId := r], pointer) ==
            if pointer == Some(r.messageId) then Leaving(rows, pointer) else Leaving(rows, pointer)[r.messageId := r]
  {
  }

  lemma {:induction false} SnocRows(rest: seq<Candidate>, c: Candidate)
    ensures RowsOf(rest + [c]) == RowsOf(rest)[c.row.messageId := c.row]
    ensures AdmittedRows(rest + [c]) == if Counts(c) then AdmittedRows(rest)[c.row.messageId := c.row] else AdmittedRows(rest)
  {
    assert (rest + [c])[..|rest|] == rest;
  }

  lemma {:induction false} ScopedRows(cs: seq<Candidate>, pointer: Option<JsString>)
    ensures AdmittedRows(Scoped(cs, pointer)) == AdmittedRows(cs) - Carrier(pointer)
    ensures RowsOf(Scoped(cs, pointer)) == RowsOf(cs) - Carrier(pointer)
  {
    if cs != [] {
      var front, c := cs[..|cs| - 1], cs[|cs| - 1];
      ScopedRows(front, pointer);
      LeavingMore(RowsOf(front), c.row, pointer);
      LeavingMore(AdmittedRows(front), c.row, pointer);
      if pointer != Some(c.row.messageId) {
        SnocRows(Scoped(front, pointer), c);
      } else {
        assert Scoped(cs, pointer) == Scoped(front, pointer);
      }
    }
  }

  lemma {:induction false} ViewLeaving(rows: map<JsString, Row>, out: set<JsString>)
    ensures ViewOf(rows - out) == ViewOf(rows) - out
  {
  }

  ghost predicate HistoryEqual(h: Hasher, cs: seq<Candidate>, part: CheckpointPart, pointer: Option<JsString>) {
    FrontierRoot(h, Tails(RowsOf(Scoped(cs, pointer)))) == part.frontierRoot
  }

  ghost predicate ViewEqual(h: Hasher, cs: seq<Candidate>, part: CheckpointPart, pointer: Option<JsString>) {
    IsViewRoot(h, part.viewRoot, ViewOf(AdmittedRows(Scoped(cs, pointer))))
  }

  ghost function VerdictOf(h: Hasher, cs: seq<Candidate>, part: CheckpointPart, pointer: Option<JsString>): Verdict {
    Judge(HistoryEqual(h, cs, part, pointer), if VersionsEqual(part) then Some(ViewEqual(h, cs, part, pointer)) else None)
  }

  method CompareDialogCheckpoint(h: Hasher, cs: seq<Candidate>, part: CheckpointPart, pointer: Option<JsString>)
    returns (verdict: Verdict, historyEqual: bool, viewEqual: Option<bool>)
    ensures historyEqual <==> HistoryEqual(h, cs, part, pointer)
    ensures viewEqual.None? <==> part.version != 3 || part.reducerVersion != REDUCER_VERSION || part.treeVersion != TREE_VERSION
    ensures viewEqual.Some? ==> (viewEqual.value <==> ViewEqual(h, cs, part, pointer))
    ensures verdict.ViewUnverifiable? <==> viewEqual.None?
    ensures verdict == VerdictOf(h, cs, part, pointer)
  {
    var state, _ := ComputeDialogViewState(cs);
    AdmittedAreWire(cs);
    ScopedRows(cs, pointer);
    ViewLeaving(AdmittedRows(cs), Carrier(pointer));
    if pointer.Some? {
      state := state - {pointer.value};
    }
    assert AdmittedRows(cs) - {} == AdmittedRows(cs);
    assert state == ViewOf(AdmittedRows(Scoped(cs, pointer)));
    var frontier, _ := ComputeDialogFrontier(Scoped(cs, pointer));
    var es := EntriesOf(frontier);
    var root := DeriveFrontierRoot(h, es);
    historyEqual := root == part.frontierRoot;
    viewEqual := None;
    if VersionsEqual(part) {
      var tree := BuildWireTree(h, state);
      viewEqual := Some(tree.root == part.viewRoot);
      assert IsViewRoot(h, tree.root, state);
      if IsViewRoot(h, part.viewRoot, state) {
        ViewRootUnique(h, tree.root, part.viewRoot, state);
      }
    }
    verdict := Judge(historyEqual, viewEqual);
  }

  // ---------- what the verdicts mean ----------

  /** Two frontiers' pre-images with one digest. */
  ghost predicate FrontiersCollide(h: Hasher, f: map<JsString, JsString>, g: map<JsString, JsString>) {
    Collide(h, {FrontierPreimage(f)}, {FrontierPreimage(g)})
  }

  /** A matching view root means the view the checkpoint was made over, or the two trees collide. */
  lemma {:induction false} EqualRootSameView(h: Hasher, part: CheckpointPart, rows: map<JsString, Row>, s: ViewState)
    requires Attests(h, part, rows) && IsViewRoot(h, part.viewRoot, s)
    requires SizedState(ViewOf(rows)) && SizedState(s)
    ensures s == ViewOf(rows) || ViewsCollide(h, ViewOf(rows), s)
  {
    var v :| IsViewTree(h, v, ViewOf(rows)) && v.root == part.viewRoot;
    var w :| IsViewTree(h, w, s) && w.root == part.viewRoot;
    RootBinding(h, v, ViewOf(rows), w, s);
  }

  /** Two trees of the two views hash two different inputs to one digest. */
  ghost predicate ViewsCollide(h: Hasher, s: ViewState, s': ViewState) {
    exists v, w :: IsViewTree(h, v, s) && IsViewTree(h, w, s') && Collide(h, TreePreimages(v), TreePreimages(w))
  }

  /** Leave messages the signed history does not have out of a later one, the carrier of the checkpoint say:
      if the frontier roots then agree, so do the view roots, short of a hash collision. */
  lemma {:induction false} EqualFrontierRootSameViewRoot(h: Hasher, d: Dialog, held: set<JsString>, e: Dialog, admitted: set<JsString>, out: set<JsString>, part: CheckpointPart)
    requires Gated(d, held) && Inside(d.current, held) && Gated(e, admitted) && Inside(e.current - out, admitted)
    requires out !! d.current.Keys && Attests(h, part, d.current)
    requires FramableMap(Tails(d.current)) && FramableMap(Tails(e.current - out))
    requires FrontierRoot(h, Tails(e.current - out)) == part.frontierRoot
    ensures IsViewRoot(h, part.viewRoot, ViewOf(e.current - out))
            || FrontiersCollide(h, Tails(d.current), Tails(e.current - out)) || RowClash(d.known, e.known)
  {
    FrontierBinding(h, Tails(d.current), Tails(e.current - out));
    if Tails(d.current) == Tails(e.current - out) {
      SameFrontierSameViewBeside(d, held, e, admitted, out);
    }
  }

  // ---------- what the verdict says of the rows ----------

  lemma {:induction false} RowsNamed(cs: seq<Candidate>)
    ensures forall m :: m in RowsOf(cs) <==> exists i :: 0 <= i < |cs| && cs[i].row.messageId == m
    ensures forall m :: m in AdmittedRows(cs) <==> exists i :: 0 <= i < |cs| && cs[i].row.messageId == m && Counts(cs[i])
  {
    if cs != [] {
      var rest := cs[..|cs| - 1];
      RowsNamed(rest);
      forall m
        ensures m in RowsOf(cs) <==> exists i :: 0 <= i < |cs| && cs[i].row.messageId == m
        ensures m in AdmittedRows(cs) <==> exists i :: 0 <= i < |cs| && cs[i].row.messageId == m && Counts(cs[i])
      {
        NamedStep(cs, m);
      }
    }
  }

  lemma {:induction false} NamedStep(cs: seq<Candidate>, m: JsString)
    requires cs != []
    requires var rest := cs[..|cs| - 1];
             && (m in RowsOf(rest) <==> exists i :: 0 <= i < |rest| && rest[i].row.messageId == m)
             && (m in AdmittedRows(rest) <==> exists i :: 0 <= i < |rest| && rest[i].row.messageId == m && Counts(rest[i]))
    ensures m in RowsOf(cs) <==> exists i :: 0 <= i < |cs| && cs[i].row.messageId == m
    ensures m in AdmittedRows(cs) <==> exists i :: 0 <= i < |cs| && cs[i].row.messageId == m && Counts(cs[i])
  {
    var rest, last := cs[..|cs| - 1], |cs| - 1;
    assert forall i :: 0 <= i < last ==> rest[i] == cs[i];
    if m in RowsOf(rest) {
      var i :| 0 <= i < last && rest[i].row.messageId == m;
      assert cs[i].row.messageId == m;
    }
    if m in AdmittedRows(rest) {
      var i :| 0 <= i < last && rest[i].row.messageId == m && Counts(rest[i]);
      assert cs[i].row.messageId == m && Counts(cs[i]);
    }
    assert cs[last].row.messageId == m ==> m in RowsOf(cs);
  }

  /** A row that is not admitted leaves its message out of the view. */
  lemma {:induction false} UnadmittedRow(cs: seq<Candidate>) returns (m: JsString)
    requires OneRowEach(cs) && Unadmitted(cs) != []
    ensures m in RowsOf(cs) && m !in AdmittedRows(cs)
  {
    AllAdmitted(cs);
    RowsNamed(cs);
    var i :| 0 <= i < |cs| && !Counts(cs[i]);
    m := cs[i].row.messageId;
  }

  /** Each row of the record is that of some candidate. */
  lemma {:induction false} RowIsCandidate(cs: seq<Candidate>, m: JsString) returns (i: nat)
    requires m in RowsOf(cs)
    ensures i < |cs| && RowsOf(cs)[m] == cs[i].row
  {
    if cs[|cs| - 1].row.messageId == m {
      i := |cs| - 1;
    } else {
      i := RowIsCandidate(cs[..|cs| - 1], m);
    }
  }

  /** What the gate admitted holds every candidate that counts. */
  ghost predicate CountsAdmitted(cs: seq<Candidate>, admitted: set<JsString>) {
    forall c :: c in cs && Counts(c) ==> c.row.signHash in admitted
  }

  lemma {:induction false} AllAdmittedInside(cs: seq<Candidate>, admitted: set<JsString>)
    requires CountsAdmitted(cs, admitted) && Unadmitted(cs) == []
    ensures Inside(RowsOf(cs), admitted)
  {
    AllAdmitted(cs);
    forall m | m in RowsOf(cs)
      ensures RowsOf(cs)[m].signHash in admitted
    {
      var i := RowIsCandidate(cs, m);
      assert cs[i] in cs && Counts(cs[i]);
    }
  }

  lemma {:induction false} ScopedWithin(cs: seq<Candidate>, pointer: Option<JsString>)
    ensures forall i :: 0 <= i < |Scoped(cs, pointer)| ==> Scoped(cs, pointer)[i] in cs
    ensures OneRowEach(cs) ==> OneRowEach(Scoped(cs, pointer))
  {
    if cs != [] {
      var rest, last := cs[..|cs| - 1], |cs| - 1;
      ScopedWithin(rest, pointer);
      if OneRowEach(cs) {
        forall i | 0 <= i < |Scoped(rest, pointer)|
          ensures Scoped(rest, pointer)[i].row.messageId != cs[last].row.messageId
        {
          var j :| 0 <= j < |rest| && rest[j] == Scoped(rest, pointer)[i];
          assert cs[j] == rest[j];
        }
      }
    }
  }

  /** The verdict told by the rows: the ones that were signed, and the candidates compared with them. */
  function TrueVerdict(signed: map<JsString, Row>, cs: seq<Candidate>): Verdict {
    if Tails(signed) == Tails(RowsOf(cs)) then
      (if Unadmitted(cs) == [] then ExactMatch else InconsistentView)
    else if ViewOf(signed) == ViewOf(AdmittedRows(cs)) then HistoryChangedViewEqual
    else ViewChanged
  }

  /** Strings a frame can hold on both sides. */
  ghost predicate SizedComparison(signed: map<JsString, Row>, cs: seq<Candidate>) {
    && SizedState(ViewOf(signed)) && SizedState(ViewOf(AdmittedRows(cs)))
    && FramableMap(Tails(signed)) && FramableMap(Tails(RowsOf(cs)))
  }

  /** A collision between what was hashed for the checkpoint and what is hashed to compare with it. */
  ghost predicate ComparisonCollides(h: Hasher, signed: map<JsString, Row>, cs: seq<Candidate>) {
    || FrontiersCollide(h, Tails(signed), Tails(RowsOf(cs)))
    || ViewsCollide(h, ViewOf(signed), ViewOf(AdmittedRows(cs)))
  }

  lemma {:induction false} HistoryEqualMeans(h: Hasher, part: CheckpointPart, signed: map<JsString, Row>, cs: seq<Candidate>, pointer: Option<JsString>)
    requires Attests(h, part, signed) && SizedComparison(signed, Scoped(cs, pointer))
    requires !ComparisonCollides(h, signed, Scoped(cs, pointer))
    ensures HistoryEqual(h, cs, part, pointer) <==> Tails(signed) == Tails(RowsOf(Scoped(cs, pointer)))
  {
    if HistoryEqual(h, cs, part, pointer) {
      FrontierBinding(h, Tails(signed), Tails(RowsOf(Scoped(cs, pointer))));
    }
  }

  lemma {:induction false} ViewEqualMeans(h: Hasher, part: CheckpointPart, signed: map<JsString, Row>, cs: seq<Candidate>, pointer: Option<JsString>)
    requires Attests(h, part, signed) && SizedComparison(signed, Scoped(cs, pointer))
    requires !ComparisonCollides(h, signed, Scoped(cs, pointer))
    ensures ViewEqual(h, cs, part, pointer) <==> ViewOf(signed) == ViewOf(AdmittedRows(Scoped(cs, pointer)))
  {
    if ViewEqual(h, cs, part, pointer) {
      EqualRootSameView(h, part, signed, ViewOf(AdmittedRows(Scoped(cs, pointer))));
    }
  }

  /** A checkpoint of d's current rows, all admitted there, compared on a device that holds e and has admitted some of it.
      What is not admitted, on either, may wait for revisions that have not arrived. The carrier is newer than the checkpoint. */
  ghost predicate Compared(d: Dialog, held: set<JsString>, e: Dialog, admitted: set<JsString>, cs: seq<Candidate>, pointer: Option<JsString>) {
    && Gated(d, held) && Inside(d.current, held)
    && Gated(e, admitted) && RowsOf(cs) == e.current && OneRowEach(cs) && CountsAdmitted(cs, admitted)
    && Carrier(pointer) !! d.current.Keys
  }

  lemma {:induction false} AdmittedViewHolds(d: Dialog, held: set<JsString>, e: Dialog, admitted: set<JsString>, cs: seq<Candidate>, pointer: Option<JsString>)
    requires Compared(d, held, e, admitted, cs, pointer) && !RowClash(d.known, e.known)
    requires Tails(d.current) == Tails(RowsOf(Scoped(cs, pointer))) && Unadmitted(Scoped(cs, pointer)) == []
    ensures ViewOf(d.current) == ViewOf(AdmittedRows(Scoped(cs, pointer)))
  {
    ScopedRows(cs, pointer);
    ScopedWithin(cs, pointer);
    AllAdmittedInside(Scoped(cs, pointer), admitted);
    SameRowsBeside(d, held, e, admitted, Carrier(pointer));
    AllAdmitted(Scoped(cs, pointer));
  }

  lemma {:induction false} UnadmittedViewDiffers(d: Dialog, held: set<JsString>, e: Dialog, admitted: set<JsString>, cs: seq<Candidate>, pointer: Option<JsString>)
    requires Compared(d, held, e, admitted, cs, pointer) && !RowClash(d.known, e.known)
    requires Tails(d.current) == Tails(RowsOf(Scoped(cs, pointer))) && Unadmitted(Scoped(cs, pointer)) != []
    ensures ViewOf(d.current) != ViewOf(AdmittedRows(Scoped(cs, pointer)))
  {
    ScopedRows(cs, pointer);
    ScopedWithin(cs, pointer);
    NoneBeside(d, held, e, Carrier(pointer));
    var m := UnadmittedRow(Scoped(cs, pointer));
    assert m in ViewOf(d.current) && m !in ViewOf(AdmittedRows(Scoped(cs, pointer)));
  }

  /** With one frontier the views are equal exactly when everything compared is admitted. */
  lemma {:induction false} ViewHoldsIffAdmitted(d: Dialog, held: set<JsString>, e: Dialog, admitted: set<JsString>, cs: seq<Candidate>, pointer: Option<JsString>)
    requires Compared(d, held, e, admitted, cs, pointer) && !RowClash(d.known, e.known)
    requires Tails(d.current) == Tails(RowsOf(Scoped(cs, pointer)))
    ensures ViewOf(d.current) == ViewOf(AdmittedRows(Scoped(cs, pointer))) <==> Unadmitted(Scoped(cs, pointer)) == []
  {
    if Unadmitted(Scoped(cs, pointer)) == [] {
      AdmittedViewHolds(d, held, e, admitted, cs, pointer);
    } else {
      UnadmittedViewDiffers(d, held, e, admitted, cs, pointer);
    }
  }

  lemma {:induction false} VerdictTable(h: Hasher, part: CheckpointPart, signed: map<JsString, Row>, cs: seq<Candidate>, pointer: Option<JsString>)
    requires VersionsEqual(part)
    requires HistoryEqual(h, cs, part, pointer) <==> Tails(signed) == Tails(RowsOf(Scoped(cs, pointer)))
    requires ViewEqual(h, cs, part, pointer) <==> ViewOf(signed) == ViewOf(AdmittedRows(Scoped(cs, pointer)))
    requires HistoryEqual(h, cs, part, pointer) ==>
               (ViewEqual(h, cs, part, pointer) <==> Unadmitted(Scoped(cs, pointer)) == [])
    ensures VerdictOf(h, cs, part, pointer) == TrueVerdict(signed, Scoped(cs, pointer))
  {
  }

  /** The verdict of the comparison, read off the rows, with the carrier left out, short of a collision. */
  lemma {:induction false} VerdictMeans(h: Hasher, d: Dialog, held: set<JsString>, e: Dialog, admitted: set<JsString>,
      cs: seq<Candidate>, part: CheckpointPart, pointer: Option<JsString>)
    requires Compared(d, held, e, admitted, cs, pointer)
    requires Attests(h, part, d.current) && SizedComparison(d.current, Scoped(cs, pointer))
    ensures VerdictOf(h, cs, part, pointer) == TrueVerdict(d.current, Scoped(cs, pointer))
            || ComparisonCollides(h, d.current, Scoped(cs, pointer)) || RowClash(d.known, e.known)
  {
    if !ComparisonCollides(h, d.current, Scoped(cs, pointer)) && !RowClash(d.known, e.known) {
      HistoryEqualMeans(h, part, d.current, cs, pointer);
      ViewEqualMeans(h, part, d.current, cs, pointer);
      if HistoryEqual(h, cs, part, pointer) {
        ViewHoldsIffAdmitted(d, held, e, admitted, cs, pointer);
      }
      VerdictTable(h, part, d.current, cs, pointer);
    }
  }

  /** The branch the code says MUST not be taken is taken exactly when the histories are equal and some row compared is
      not admitted, short of a collision: the frontier is taken over all current rows, the view over the admitted. */
  lemma {:induction false} InconsistentIffUnadmitted(h: Hasher, d: Dialog, held: set<JsString>, e: Dialog, admitted: set<JsString>,
      cs: seq<Candidate>, part: CheckpointPart, pointer: Option<JsString>)
    requires Compared(d, held, e, admitted, cs, pointer)
    requires Attests(h, part, d.current) && SizedComparison(d.current, Scoped(cs, pointer))
    requires !ComparisonCollides(h, d.current, Scoped(cs, pointer)) && !RowClash(d.known, e.known)
    ensures VerdictOf(h, cs, part, pointer) == InconsistentView
            <==> HistoryEqual(h, cs, part, pointer) && Unadmitted(Scoped(cs, pointer)) != []
  {
    VerdictMeans(h, d, held, e, admitted, cs, part, pointer);
    HistoryEqualMeans(h, part, d.current, cs, pointer);
  }

  // ---------- two devices that see it ----------

  /** Two candidates that are not admitted, the second the carrier. */
  function OneAndCarrier(t: Row, k: Row): seq<Candidate> {
    [Candidate(t, false), Candidate(k, false)]
  }

  lemma {:induction false} OneAndCarrierRows(t: Row, k: Row)
    requires t.messageId != k.messageId
    ensures var cs := OneAndCarrier(t, k);
            && RowsOf(cs) == map[t.messageId := t, k.messageId := k] && OneRowEach(cs) && CountsAdmitted(cs, {})
            && Scoped(cs, Some(k.messageId)) == [Candidate(t, false)]
  {
    var cs := OneAndCarrier(t, k);
    assert cs[..1] == [Candidate(t, false)] && cs[..1][..0] == [];
    assert Scoped(cs[..1], Some(k.messageId)) == Scoped([], Some(k.messageId)) + [Candidate(t, false)];
    assert RowsOf(cs[..1]) == map[t.messageId := t];
  }

  lemma {:induction false} LoneCandidate(t: Row)
    ensures var cs := [Candidate(t, false)];
            RowsOf(cs) == map[t.messageId := t] && ViewOf(AdmittedRows(cs)) == map[] && Unadmitted(cs) != []
  {
    var cs := [Candidate(t, false)];
    assert cs[..0] == [];
    assert AdmittedRows(cs) == map[];
  }

  lemma {:induction false} EmptyViewDiffers(h: Hasher, signed: map<JsString, Row>, part: CheckpointPart, m: JsString)
    requires Attests(h, part, signed) && SizedState(ViewOf(signed)) && m in signed && IsViewRoot(h, part.viewRoot, map[])
    ensures ViewsCollide(h, ViewOf(signed), map[])
  {
    EqualRootSameView(h, part, signed, map[]);
    assert m in ViewOf(signed);
  }

  /** With the frontier of the signed rows, and nothing admitted. */
  lemma {:induction false} TailUnadmitted(h: Hasher, signed: map<JsString, Row>, t: Row, k: Row, part: CheckpointPart)
    requires t.messageId in signed && Tails(signed) == Tails(map[t.messageId := t]) && SizedState(ViewOf(signed))
    requires Attests(h, part, signed) && t.messageId != k.messageId
    ensures VerdictOf(h, OneAndCarrier(t, k), part, Some(k.messageId)) == InconsistentView
            || ViewsCollide(h, ViewOf(signed), map[])
  {
    OneAndCarrierRows(t, k);
    LoneCandidate(t);
    if ViewEqual(h, OneAndCarrier(t, k), part, Some(k.messageId)) {
      EmptyViewDiffers(h, signed, part, t.messageId);
    }
  }

  lemma {:induction false} WireSized(rows: map<JsString, Row>)
    requires forall m :: m in rows ==> rows[m].messageId == m && IsWireMessageId(m) && SizedRow(rows[m])
    ensures SizedState(ViewOf(rows))
  {
    forall m | m in rows
      ensures IsAscii(m)
    {
      WireIdIsTreeKey(m);
    }
  }

  /** The whole of y's citations is the revision x. */
  predicate CitesOnly(y: Row, x: Row) {
    y.parent.None? && y.refs == Some(map[x.messageId := x.signHash])
  }

  /** Of x and y only y cites the other. */
  predicate Chain(x: Row, y: Row) {
    && x.messageId != y.messageId && x.signHash != y.signHash && x.timestamp < y.timestamp
    && CitesOnly(y, x) && Cites(x) !! {x.signHash, y.signHash}
  }

  function Pair(x: Row, y: Row): Dialog {
    Dialog(map[x.signHash := x, y.signHash := y], map[x.messageId := x, y.messageId := y])
  }

  lemma {:induction false} ChainOrdered(x: Row, y: Row)
    requires Chain(x, y)
    ensures Ordered(Pair(x, y))
  {
    OneRefCites(y, x.messageId, x.signHash);
    OlderCitedAcyclic(Pair(x, y).known);
  }

  lemma {:induction false} ChainTails(x: Row, y: Row)
    requires Chain(x, y)
    ensures Tails(Pair(x, y).current) == map[y.messageId := y.signHash] == Tails(map[y.messageId := y])
  {
    var rows := Pair(x, y).current;
    assert rows[x.messageId] == x && rows[y.messageId] == y;
    assert CitesPair(y, x);
    if CitesPair(x, y) {
      PairIsCitation(x, y);
    }
    assert !IsTail(rows, x) && IsTail(rows, y);
    assert map[y.messageId := y][y.messageId] == y;
  }

  /** The history of one row that cites nothing. */
  lemma {:induction false} LoneRowGated(r: Row)
    requires r.parent.None? && r.refs == Some(map[])
    ensures Gated(Dialog(map[r.signHash := r], map[r.messageId := r]), {r.signHash})
  {
    assert Cites(r) == {};
    NoLongWalk(map[r.signHash := r]);
  }

  lemma {:induction false} PairGated(x: Row, y: Row)
    requires Chain(x, y) && x.refs == Some(map[])
    ensures Gated(Pair(x, y), {x.signHash, y.signHash}) && Inside(Pair(x, y).current, {x.signHash, y.signHash})
  {
    ChainOrdered(x, y);
    OneRefCites(y, x.messageId, x.signHash);
    assert RefTargets(x) == {};
  }

  /** Where only t and the carrier have arrived, and neither is admitted. */
  lemma {:induction false} NothingAdmitted(d: Dialog, held: set<JsString>, t: Row, k: Row)
    requires Gated(d, held) && Inside(d.current, held) && Chain(t, k) && k.messageId !in d.current
    ensures Compared(d, held, Pair(t, k), {}, OneAndCarrier(t, k), Some(k.messageId))
  {
    ChainOrdered(t, k);
    OneAndCarrierRows(t, k);
  }

  /** A signed dialog of one message, compared with itself and its carrier k while neither row is admitted yet. */
  lemma {:induction false} SignedRowNotYetAdmitted(h: Hasher, r: Row, k: Row, part: CheckpointPart)
    requires r.parent.None? && r.refs == Some(map[]) && SizedRow(r) && IsWireMessageId(r.messageId) && Chain(r, k)
    requires Attests(h, part, map[r.messageId := r])
    ensures Compared(Dialog(map[r.signHash := r], map[r.messageId := r]), {r.signHash}, Pair(r, k), {}, OneAndCarrier(r, k), Some(k.messageId))
    ensures VerdictOf(h, OneAndCarrier(r, k), part, Some(k.messageId)) == InconsistentView
            || ViewsCollide(h, ViewOf(map[r.messageId := r]), map[])
  {
    LoneRowGated(r);
    NothingAdmitted(Dialog(map[r.signHash := r], map[r.messageId := r]), {r.signHash}, r, k);
    WireSized(map[r.messageId := r]);
    TailUnadmitted(h, map[r.messageId := r], r, k, part);
  }

  /** a and b are compared on a device where b and the carrier k have arrived, and a, which b cites, has not. */
  ghost predicate WaitsFor(a: Row, b: Row, k: Row) {
    && Compared(Pair(a, b), {a.signHash, b.signHash}, Pair(b, k), {}, OneAndCarrier(b, k), Some(k.messageId))
    && !CausallyClosed(Pair(b, k).known)
  }

  /** A signed dialog of two messages, b citing a, compared where b and the carrier have arrived and wait for a. */
  lemma {:induction false} WaitingRowNotYetAdmitted(h: Hasher, a: Row, b: Row, k: Row, part: CheckpointPart)
    requires a.parent.None? && a.refs == Some(map[]) && Chain(a, b) && Chain(b, k) && k.messageId != a.messageId
    requires SizedRow(a) && SizedRow(b) && IsWireMessageId(a.messageId) && IsWireMessageId(b.messageId)
    requires Attests(h, part, Pair(a, b).current)
    ensures WaitsFor(a, b, k)
    ensures VerdictOf(h, OneAndCarrier(b, k), part, Some(k.messageId)) == InconsistentView
            || ViewsCollide(h, ViewOf(Pair(a, b).current), map[])
  {
    WaitsForMissing(a, b, k);
    WaitingVerdict(h, a, b, k, part);
  }

  lemma {:induction false} PairSized(x: Row, y: Row)
    requires SizedRow(x) && SizedRow(y) && IsWireMessageId(x.messageId) && IsWireMessageId(y.messageId)
    ensures SizedState(ViewOf(Pair(x, y).current)) && y.messageId in Pair(x, y).current
  {
    var rows := Pair(x, y).current;
    assert forall m :: m in rows ==> (m == x.messageId || m == y.messageId) && (rows[m] == x || rows[m] == y);
    WireSized(rows);
  }

  lemma {:induction false} WaitingVerdict(h: Hasher, a: Row, b: Row, k: Row, part: CheckpointPart)
    requires Chain(a, b) && b.messageId != k.messageId
    requires SizedRow(a) && SizedRow(b) && IsWireMessageId(a.messageId) && IsWireMessageId(b.messageId)
    requires Attests(h, part, Pair(a, b).current)
    ensures VerdictOf(h, OneAndCarrier(b, k), part, Some(k.messageId)) == InconsistentView
            || ViewsCollide(h, ViewOf(Pair(a, b).current), map[])
  {
    ChainTails(a, b);
    PairSized(a, b);
    TailUnadmitted(h, Pair(a, b).current, b, k, part);
  }

  lemma {:induction false} WaitsForMissing(a: Row, b: Row, k: Row)
    requires a.refs == Some(map[]) && Chain(a, b) && Chain(b, k) && k.messageId != a.messageId
    ensures WaitsFor(a, b, k)
  {
    PairGated(a, b);
    NothingAdmitted(Pair(a, b), {a.signHash, b.signHash}, b, k);
    OneRefCites(b, a.messageId, a.signHash);
    assert Pair(b, k).known[b.signHash] == b && a.signHash !in Pair(b, k).known;
  }

  // ---------- diffing ----------

  datatype DiffStatus =
    | UnsupportedVersion
    | IncompleteHistory(missing: seq<Pointer>)
    | KeyRefused(key: JsString)
    | Diffed(currentFrontier: map<JsString, JsString>, changes: seq<DialogChange>)

  ghost predicate TreesCollide(h: Hasher, s: ViewState, s': ViewState) {
    exists v, w :: IsViewTree(h, v, s) && IsViewTree(h, w, s') && Collide(h, PreimagesAt(v.node), PreimagesAt(w.node))
  }

  lemma {:induction false} DiffTells(h: Hasher, v: ViewTree, w: ViewTree, s: ViewState, s': ViewState, d: ViewDiff)
    requires IsViewTree(h, v, s) && IsViewTree(h, w, s')
    requires SortedAndExact(d, s, s') || Collide(h, PreimagesAt(v.node), PreimagesAt(w.node))
    ensures TellsFates(Classified(d), s, s') || TreesCollide(h, s, s')
  {
    if SortedAndExact(d, s, s') {
      ClassifiedTellsFates(d, s, s');
    } else {
      assert TreesCollide(h, s, s');
    }
  }

  method DiffTrees(h: Hasher, v: ViewTree, w: ViewTree, ghost s: ViewState, ghost s': ViewState) returns (changes: seq<DialogChange>)
    requires IsViewTree(h, v, s) && IsViewTree(h, w, s') && SizedState(s) && SizedState(s')
    ensures TellsFates(changes, s, s') || TreesCollide(h, s, s')
  {
    var d := DiffViewTrees(h, v, w, s, s');
    changes := ClassifyChanges(d);
    DiffTells(h, v, w, s, s', d);
  }

  /** Nothing reachable from the frontier is missing, and best is a newest reachable revision per message. */
  ghost predicate RebuiltFrom(known: Known, frontier: map<JsString, JsString>, best: map<JsString, Row>) {
    exists visited :: VisitedFrom(known, frontier, visited) && MissingOf(known, visited, []) && BestOf(known, visited, best)
  }

  /** s shows the rebuilt rows, s' the admitted current ones. */
  ghost predicate Compares(s: ViewState, best: map<JsString, Row>, s': ViewState, cs: seq<Candidate>) {
    Shows(s, best) && Shows(s', AdmittedRows(cs)) && (OneRowEach(cs) ==> StateOf(s', cs))
  }

  lemma {:induction false} StatesCompared(best: map<JsString, Row>, cs: seq<Candidate>)
    ensures Compares(ViewOf(best), best, ViewOf(AdmittedRows(cs)), cs)
  {
    ShowsOnlyView(ViewOf(best), best);
    ShowsOnlyView(ViewOf(AdmittedRows(cs)), AdmittedRows(cs));
    if OneRowEach(cs) {
      ViewIsState(cs);
    }
  }

  /** diffDialogCheckpoint: rebuild the view under the checkpoint's frontier and diff it with the current one. */
  method DiffDialogCheckpoint(h: Hasher, known: Known, cs: seq<Candidate>, part: CheckpointPart) returns (r: DiffStatus)
    requires Keyed(known)
    requires KeysDiverge(set a | a in known :: known[a].messageId)
    requires forall a :: a in known ==> SizedRow(known[a])
    requires forall i :: 0 <= i < |cs| ==> SizedRow(cs[i].row)
    ensures r.UnsupportedVersion? <==>
              part.version != 3 || part.reducerVersion != REDUCER_VERSION || part.treeVersion != TREE_VERSION
    ensures r.IncompleteHistory? ==>
              r.missing != [] && exists visited ::
                VisitedFrom(known, part.frontier, visited) && MissingOf(known, visited, r.missing)
                && Cited(known, part.frontier, visited, r.missing)
    ensures r.Diffed? ==> r.currentFrontier == Tails(RowsOf(cs))
    ensures r.Diffed? ==>
              exists best, s, s' :: RebuiltFrom(known, part.frontier, best) && (forall m :: m in best ==> TreeKey(m))
                && Compares(s, best, s', cs) && (TellsFates(r.changes, s, s') || TreesCollide(h, s, s'))
    ensures r.KeyRefused? ==> !TreeKey(r.key) && exists best :: RebuiltFrom(known, part.frontier, best) && r.key in best
  {
    if !VersionsEqual(part) {
      return UnsupportedVersion;
    }
    var newState, _ := ComputeDialogViewState(cs);
    var es := EntriesOf(part.frontier);
    var visited, missing, best := Closure(known, es);
    assert VisitedFrom(known, part.frontier, visited);
    if missing != [] {
      return IncompleteHistory(missing);
    }
    assert RebuiltFrom(known, part.frontier, best);
    var oldState := ViewOf(best);
    BestKeysDiverge(known, visited, best);
    var oldEntries := EntriesOf(oldState);
    var oldTree := BuildViewTree(h, oldEntries);
    if oldTree.Err? {
      return KeyRefused(oldTree.error);
    }
    BestSized(known, visited, best);
    AdmittedSized(cs);
    AdmittedAreWire(cs);
    var newTree := BuildWireTree(h, newState);
    var changes := DiffTrees(h, oldTree.value, newTree, oldState, newState);
    StatesCompared(best, cs);
    assert Compares(oldState, best, newState, cs) == true;
    var frontier, _ := ComputeDialogFrontier(cs);
    r := Diffed(frontier, changes);
  }

  predicate SizedRow(r: Row) {
    |r.messageId| < 0x2000_0000 && WellFormed(r.signHash) && |Utf8(r.signHash)| < TWO32
  }

  lemma {:induction false} BestKeysDiverge(known: Known, visited: set<JsString>, best: map<JsString, Row>)
    requires KeysDiverge(set a | a in known :: known[a].messageId) && BestOf(known, visited, best)
    ensures KeysDiverge(ViewOf(best).Keys)
  {
    forall m | m in best
      ensures m in set a | a in known :: known[a].messageId
    {
      assert known[best[m].signHash].messageId == m;
    }
  }

  lemma {:induction false} BestSized(known: Known, visited: set<JsString>, best: map<JsString, Row>)
    requires forall a :: a in known ==> SizedRow(known[a])
    requires BestOf(known, visited, best) && forall m :: m in best ==> TreeKey(m)
    ensures SizedState(ViewOf(best))
  {
    forall m | m in best
      ensures SizedRow(best[m])
    {
      assert SizedRow(known[best[m].signHash]);
    }
  }

  lemma {:induction false} AdmittedSized(cs: seq<Candidate>)
    requires forall i :: 0 <= i < |cs| ==> SizedRow(cs[i].row)
    ensures SizedState(ViewOf(AdmittedRows(cs)))
    ensures forall m :: m in AdmittedRows(cs) ==> SizedRow(AdmittedRows(cs)[m])
  {
    if cs != [] {
      var c := cs[|cs| - 1];
      assert SizedRow(c.row);
      AdmittedSized(cs[..|cs| - 1]);
      if Counts(c) {
        WireIdIsTreeKey(c.row.messageId);
      }
    }
  }

  ghost predicate VisitedFrom(known: Known, frontier: map<JsString, JsString>, visited: set<JsString>) {
    forall sh :: sh in visited <==> Reachable(known, frontier.Values, sh)
  }
}
