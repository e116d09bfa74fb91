/** Equal causally closed histories give equal views, and a checkpoint's frontier rebuilds the view it signed. */
module DialogViews {
  import opened Prelude
  import opened JsText
  import opened ViewTrie
  import opened DialogRows
  import opened CheckpointWorklist

  /** What a device holds of a dialog: every revision, and the current row of each message. */
  datatype Dialog = Dialog(known: Known, current: map<JsString, Row>)

  ghost predicate Walks(known: Known, a: JsString, b: JsString) {
    exists path :: |path| > 1 && path[0] == a && path[|path| - 1] == b && Steps(known, path)
  }

  ghost predicate Acyclic(known: Known) {
    forall a :: a in known ==> !Walks(known, a, a)
  }

  ghost predicate CausallyClosed(known: Known) {
    forall a :: a in known ==> Cites(known[a]) <= known.Keys
  }

  /** c is the strictly newest revision beside a. */
  predicate Supersedes(c: Row, a: Row) {
    c.messageId == a.messageId && (c == a || c.timestamp > a.timestamp)
  }

  ghost predicate CurrentKnown(known: Known, current: map<JsString, Row>) {
    forall m :: m in current ==>
      current[m].messageId == m && current[m].signHash in known && known[current[m].signHash] == current[m]
  }

  ghost predicate CurrentNewest(known: Known, current: map<JsString, Row>) {
    forall a :: a in known ==> known[a].messageId in current && Supersedes(current[known[a].messageId], known[a])
  }

  /** Citations have no cycle, and the current row of each message is its strictly newest revision. */
  ghost predicate Ordered(d: Dialog) {
    Keyed(d.known) && Acyclic(d.known) && CurrentKnown(d.known, d.current) && CurrentNewest(d.known, d.current)
  }

  /** What is admitted cites, in its refs, only what is admitted: what the gate keeps of the rows it lets in. */
  ghost predicate RefsClosed(known: Known, admitted: set<JsString>) {
    forall a :: a in admitted ==> a in known && RefTargets(known[a]) <= admitted
  }

  /** A device's rows, of which some are admitted; the others may cite what has not arrived. */
  ghost predicate Gated(d: Dialog, admitted: set<JsString>) {
    Ordered(d) && RefsClosed(d.known, admitted)
  }

  predicate Inside(rows: map<JsString, Row>, admitted: set<JsString>) {
    forall m :: m in rows ==> rows[m].signHash in admitted
  }

  /** A causally closed, acyclic history whose current row is the strictly newest revision of each message. */
  ghost predicate Sound(d: Dialog) {
    Ordered(d) && CausallyClosed(d.known)
  }

  lemma {:induction false} SoundIsGated(d: Dialog)
    requires Sound(d)
    ensures Gated(d, d.known.Keys) && Inside(d.current, d.known.Keys)
  {
  }

  /** The rows as refs alone tie them, the chains of parents left out. */
  function RefsOnly(known: Known): Known {
    map a | a in known :: known[a].(parent := None)
  }

  function Part(known: Known, s: set<JsString>): Known {
    map a | a in known && a in s :: known[a]
  }

  lemma {:induction false} AdmittedPart(known: Known, admitted: set<JsString>)
    requires RefsClosed(known, admitted)
    ensures RefsOnly(Part(known, admitted)).Keys == admitted && CausallyClosed(RefsOnly(Part(known, admitted)))
  {
    var part := RefsOnly(Part(known, admitted));
    forall a | a in part
      ensures Cites(part[a]) <= admitted
    {
      assert Cites(part[a]) == RefTargets(known[a]);
    }
  }

  // ---------- frontier and view of the current rows ----------

  predicate CitesPair(r: Row, t: Row) {
    r.refs.Some? && t.messageId in r.refs.value && r.refs.value[t.messageId] == t.signHash
  }

  /** No other current row cites t by its exact pair. */
  predicate IsTail(rows: map<JsString, Row>, t: Row) {
    forall m :: m in rows && rows[m] != t ==> !CitesPair(rows[m], t)
  }

  /** The contract of computeTails: the revisions that no other given revision cites by its exact pair. */
  function Tails(rows: map<JsString, Row>): map<JsString, JsString> {
    map m | m in rows && IsTail(rows, rows[m]) :: rows[m].signHash
  }

  function LeafOf(r: Row): LeafValue {
    LeafValue(r.signHash, r.deleted)
  }

  function ViewOf(rows: map<JsString, Row>): ViewState {
    map m | m in rows :: LeafOf(rows[m])
  }

  /** The state has exactly the messages of the rows, each at its row's revision, deleted if the row is. */
  ghost predicate Shows(s: ViewState, rows: map<JsString, Row>) {
    s.Keys == rows.Keys && forall m :: m in rows ==> s[m].signHash == rows[m].signHash && s[m].deleted == rows[m].deleted
  }

  lemma {:induction false} ShowsOnlyView(s: ViewState, rows: map<JsString, Row>)
    ensures Shows(s, rows) <==> s == ViewOf(rows)
  {
  }

  lemma {:induction false} SameView(rows: map<JsString, Row>, rows': map<JsString, Row>)
    ensures ViewOf(rows) == ViewOf(rows') <==>
            rows.Keys == rows'.Keys
            && forall m :: m in rows ==> rows[m].signHash == rows'[m].signHash && rows[m].deleted == rows'[m].deleted
  {
    ShowsOnlyView(ViewOf(rows), rows');
    ShowsOnlyView(ViewOf(rows), rows);
  }

  // ---------- every current row lies under the frontier ----------

  lemma {:induction false} WalkPrepend(known: Known, a: JsString, b: JsString, c: JsString)
    requires a in known && b in Cites(known[a]) && (b == c || Walks(known, b, c))
    ensures Walks(known, a, c)
  {
    if Walks(known, b, c) {
      var path :| |path| > 1 && path[0] == b && path[|path| - 1] == c && Steps(known, path);
      var longer := [a] + path;
      assert forall i :: 0 < i < |longer| ==> longer[i] == path[i - 1];
      assert longer[|longer| - 1] == c && Steps(known, longer);
    } else {
      assert Steps(known, [a, b]);
      assert [a, b][1] == c;
    }
  }

  lemma {:induction false} PairIsCitation(r: Row, t: Row)
    requires CitesPair(r, t)
    ensures t.signHash in RefTargets(r)
  {
    assert t.messageId in r.refs.value.Keys;
  }

  /** Some of the rows, unchanged. */
  ghost predicate Within(rows: map<JsString, Row>, current: map<JsString, Row>) {
    forall m :: m in rows ==> m in current && current[m] == rows[m]
  }

  /** The revisions that cite others in turn, of which the given one cites each through some walk. */
  ghost predicate AllBelow(known: Known, rows: map<JsString, Row>, r: Row, below: set<JsString>) {
    forall b :: b in below ==> b in rows && Walks(known, r.signHash, rows[b].signHash)
  }

  lemma {:induction false} TailReachable(known: Known, rows: map<JsString, Row>, m: JsString)
    requires m in rows && IsTail(rows, rows[m])
    ensures Reachable(known, Tails(rows).Values, rows[m].signHash)
  {
    assert m in Tails(rows) && Tails(rows)[m] == rows[m].signHash;
    RootReachable(known, Tails(rows).Values, rows[m].signHash);
  }

  lemma {:induction false} CiterOf(rows: map<JsString, Row>, r: Row) returns (n: JsString)
    requires !IsTail(rows, r)
    ensures n in rows && CitesPair(rows[n], r)
  {
    n :| n in rows && rows[n] != r && CitesPair(rows[n], r);
  }

  ghost predicate Climbing(d: Dialog, rows: map<JsString, Row>, m: JsString, below: set<JsString>) {
    Ordered(d) && Within(rows, d.current) && m in rows && m !in below && AllBelow(d.known, rows, rows[m], below)
  }

  /** Climbing from a row to one that cites it must stop, as citations have no cycle: at a tail. */
  lemma {:induction false} UnderSomeTail(d: Dialog, rows: map<JsString, Row>, m: JsString, below: set<JsString>)
    requires m in rows && m !in below && below <= rows.Keys && Climbing(d, rows, m, below) == true
    ensures Reachable(RefsOnly(d.known), Tails(rows).Values, rows[m].signHash)
    decreases rows.Keys - below
  {
    if IsTail(rows, rows[m]) {
      TailReachable(RefsOnly(d.known), rows, m);
    } else {
      var n := CiterOf(rows, rows[m]);
      CiterIsNew(d, rows, m, below, n);
      Rises(rows.Keys, below, m);
      UnderSomeTail(d, rows, n, below + {m});
      StepReachable(RefsOnly(d.known), Tails(rows).Values, rows[n].signHash, rows[m].signHash);
    }
  }

  lemma {:induction false} Rises(all: set<JsString>, below: set<JsString>, m: JsString)
    requires m in all && m !in below && below <= all
    ensures all - (below + {m}) < all - below && below + {m} <= all
  {
    assert m in all - below;
  }

  lemma {:induction false} CiterAbove(known: Known, rows: map<JsString, Row>, m: JsString, below: set<JsString>, r: Row)
    requires m in rows && AllBelow(known, rows, rows[m], below)
    requires r.signHash in known && known[r.signHash] == r && rows[m].signHash in Cites(r)
    ensures AllBelow(known, rows, r, below + {m})
  {
    forall b | b in below + {m}
      ensures b in rows && Walks(known, r.signHash, rows[b].signHash)
    {
      WalkPrepend(known, r.signHash, rows[m].signHash, rows[b].signHash);
    }
  }

  lemma {:induction false} CiterIsNew(d: Dialog, rows: map<JsString, Row>, m: JsString, below: set<JsString>, n: JsString)
    requires m in rows && Climbing(d, rows, m, below) && n in rows && CitesPair(rows[n], rows[m])
    ensures rows[n].signHash in d.known && rows[m].signHash in Cites(RefsOnly(d.known)[rows[n].signHash])
    ensures n !in below + {m} && Climbing(d, rows, n, below + {m})
  {
    PairIsCitation(rows[n], rows[m]);
    CiterAbove(d.known, rows, m, below, rows[n]);
    assert !Walks(d.known, rows[n].signHash, rows[n].signHash);
  }

  lemma {:induction false} PartReachable(d: Dialog, rows: map<JsString, Row>, m: JsString)
    requires Ordered(d) && Within(rows, d.current) && m in rows
    ensures Reachable(RefsOnly(d.known), Tails(rows).Values, rows[m].signHash)
  {
    UnderSomeTail(d, rows, m, {});
  }

  lemma {:induction false} CurrentReachable(d: Dialog, m: JsString)
    requires Sound(d) && m in d.current
    ensures Reachable(d.known, Tails(d.current).Values, d.current[m].signHash)
  {
    PartReachable(d, d.current, m);
    RefsPathsStay(d.known, Tails(d.current).Values, d.current[m].signHash);
  }

  lemma {:induction false} RefsPathsStay(known: Known, roots: set<JsString>, sh: JsString)
    requires Reachable(RefsOnly(known), roots, sh)
    ensures Reachable(known, roots, sh)
  {
    var path :| Leads(RefsOnly(known), roots, path, sh);
    assert Leads(known, roots, path, sh);
  }

  // ---------- histories with one frontier ----------

  /** Two different rows under one sign hash, one in each store. */
  ghost predicate RowClash(known: Known, known': Known) {
    exists a :: a in known && a in known' && known[a] != known'[a]
  }

  lemma {:induction false} PathTransfers(known: Known, known': Known, roots: set<JsString>, path: seq<JsString>, sh: JsString)
    requires Leads(known, roots, path, sh) && CausallyClosed(known') && roots <= known'.Keys
    requires !RowClash(known, known')
    ensures sh in known' && Leads(known', roots, path, sh)
    decreases |path|
  {
    if |path| > 1 {
      var shorter, a := path[..|path| - 1], path[|path| - 2];
      assert Leads(known, roots, shorter, a);
      PathTransfers(known, known', roots, shorter, a);
      forall i | 0 <= i < |path| - 1
        ensures path[i] in known' && path[i + 1] in Cites(known'[path[i]])
      {
        if i < |path| - 2 {
          assert shorter[i] == path[i] && shorter[i + 1] == path[i + 1];
        }
        assert path[i] in known;
      }
    }
  }

  /** What one history reaches from the common frontier, the other closed one holds, and reaches too. */
  lemma {:induction false} ReachTransfers(known: Known, known': Known, roots: set<JsString>, sh: JsString)
    requires Reachable(known, roots, sh) && CausallyClosed(known') && roots <= known'.Keys
    requires !RowClash(known, known')
    ensures sh in known' && Reachable(known', roots, sh)
  {
    var path :| Leads(known, roots, path, sh);
    PathTransfers(known, known', roots, path, sh);
  }

  lemma {:induction false} RootsHeld(d: Dialog, rows: map<JsString, Row>)
    requires Sound(d) && Within(rows, d.current)
    ensures Tails(rows).Values <= d.known.Keys
  {
  }

  lemma {:induction false} SwapClash(known: Known, known': Known)
    requires !RowClash(known, known')
    ensures !RowClash(known', known)
  {
  }

  lemma {:induction false} TailsInside(rows: map<JsString, Row>, admitted: set<JsString>)
    requires Inside(rows, admitted)
    ensures Tails(rows).Values <= admitted
  {
  }

  lemma {:induction false} PartsDoNotClash(known: Known, known': Known, s: set<JsString>)
    requires !RowClash(known, known')
    ensures !RowClash(RefsOnly(known), RefsOnly(Part(known', s)))
  {
  }

  /** A row under a frontier that is admitted elsewhere is admitted there, the same, and not newer than the current row
      of its message there. Where it comes from nothing need be admitted. */
  lemma {:induction false} HeldBeside(d: Dialog, rows: map<JsString, Row>, e: Dialog, admitted: set<JsString>, m: JsString)
    requires Ordered(d) && Within(rows, d.current) && m in rows
    requires Gated(e, admitted) && Tails(rows).Values <= admitted && !RowClash(d.known, e.known)
    ensures rows[m].signHash in admitted && m in e.current && Supersedes(e.current[m], rows[m])
  {
    PartReachable(d, rows, m);
    AdmittedPart(e.known, admitted);
    PartsDoNotClash(d.known, e.known, admitted);
    ReachTransfers(RefsOnly(d.known), RefsOnly(Part(e.known, admitted)), Tails(rows).Values, rows[m].signHash);
    assert e.known[rows[m].signHash] == rows[m];
  }

  /** The messages of a later history with the same frontier are all messages of the signed one. */
  lemma {:induction false} NoneBeside(d: Dialog, held: set<JsString>, e: Dialog, out: set<JsString>)
    requires Gated(d, held) && Inside(d.current, held) && Ordered(e)
    requires Tails(d.current) == Tails(e.current - out) && !RowClash(d.known, e.known)
    ensures forall m :: m in e.current - out ==> m in d.current && Supersedes(d.current[m], (e.current - out)[m])
  {
    TailsInside(d.current, held);
    SwapClash(d.known, e.known);
    forall m | m in e.current - out
      ensures m in d.current && Supersedes(d.current[m], (e.current - out)[m])
    {
      HeldBeside(e, e.current - out, d, held, m);
    }
  }

  lemma {:induction false} NoneMissed(d: Dialog, e: Dialog, admitted: set<JsString>, out: set<JsString>)
    requires Ordered(d) && Gated(e, admitted) && Inside(e.current - out, admitted) && out !! d.current.Keys
    requires Tails(d.current) == Tails(e.current - out) && !RowClash(d.known, e.known)
    ensures forall m :: m in d.current ==> m in e.current - out && Supersedes((e.current - out)[m], d.current[m])
  {
    TailsInside(e.current - out, admitted);
    forall m | m in d.current
      ensures m in e.current - out && Supersedes((e.current - out)[m], d.current[m])
    {
      HeldBeside(d, d.current, e, admitted, m);
    }
  }

  lemma {:induction false} MapsAgree(rows: map<JsString, Row>, rows': map<JsString, Row>)
    requires forall m :: (m in rows <==> m in rows') && (m in rows ==> rows[m] == rows'[m])
    ensures rows == rows'
  {
    assert rows.Keys == rows'.Keys;
  }

  lemma {:induction false} BothSupersede(rows: map<JsString, Row>, rows': map<JsString, Row>)
    requires forall m :: m in rows ==> m in rows' && Supersedes(rows'[m], rows[m])
    requires forall m :: m in rows' ==> m in rows && Supersedes(rows[m], rows'[m])
    ensures rows == rows'
  {
    MapsAgree(rows, rows');
  }

  lemma {:induction false} SameRowsBeside(d: Dialog, held: set<JsString>, e: Dialog, admitted: set<JsString>, out: set<JsString>)
    requires Gated(d, held) && Inside(d.current, held) && Gated(e, admitted) && Inside(e.current - out, admitted)
    requires out !! d.current.Keys && Tails(d.current) == Tails(e.current - out) && !RowClash(d.known, e.known)
    ensures d.current == e.current - out
  {
    NoneBeside(d, held, e, out);
    NoneMissed(d, e, admitted, out);
    BothSupersede(d.current, e.current - out);
  }

  /** Leave messages that one history does not have out of another: if the frontiers then agree, so do the views,
      or one sign hash names two different rows. What is left out may well be cited by what is not. Of both devices
      only the rows compared need be admitted; other rows may wait for what they cite. */
  lemma {:induction false} SameFrontierSameViewBeside(d: Dialog, held: set<JsString>, e: Dialog, admitted: set<JsString>, out: set<JsString>)
    requires Gated(d, held) && Inside(d.current, held) && Gated(e, admitted) && Inside(e.current - out, admitted)
    requires out !! d.current.Keys && Tails(d.current) == Tails(e.current - out)
    ensures ViewOf(d.current) == ViewOf(e.current - out) || RowClash(d.known, e.known)
  {
    if !RowClash(d.known, e.known) {
      SameRowsBeside(d, held, e, admitted, out);
    }
  }

  /** Two sound histories with one frontier have one view, or one sign hash names two different rows. */
  lemma {:induction false} SameFrontierSameView(d: Dialog, e: Dialog)
    requires Sound(d) && Sound(e) && Tails(d.current) == Tails(e.current)
    ensures ViewOf(d.current) == ViewOf(e.current) || RowClash(d.known, e.known)
  {
    assert e.current - {} == e.current;
    SoundIsGated(d);
    SoundIsGated(e);
    SameFrontierSameViewBeside(d, d.known.Keys, e, e.known.Keys, {});
  }

  // ---------- rebuilding ----------

  /** The reachable revisions in a store that still holds a history are revisions of that history. */
  lemma {:induction false} VisitedWithin(d: Dialog, known: Known, visited: set<JsString>)
    requires Sound(d) && d.known.Keys <= known.Keys && !RowClash(d.known, known)
    requires forall sh :: sh in visited <==> Reachable(known, Tails(d.current).Values, sh)
    ensures visited <= d.known.Keys
  {
    RootsHeld(d, d.current);
    SwapClash(d.known, known);
    forall sh | sh in visited
      ensures sh in d.known
    {
      ReachTransfers(known, d.known, Tails(d.current).Values, sh);
    }
  }

  /** Among reachable revisions the best one of a message is its row that was current. */
  lemma {:induction false} BestIsCurrent(d: Dialog, known: Known, visited: set<JsString>, best: map<JsString, Row>, m: JsString)
    requires Sound(d) && m in d.current && d.known.Keys <= known.Keys && !RowClash(d.known, known)
    requires visited <= d.known.Keys && d.current[m].signHash in visited && BestOf(known, visited, best)
    ensures m in best && best[m] == d.current[m]
  {
    var r := d.current[m];
    assert known[r.signHash] == r;
    assert m in best && best[m].timestamp >= r.timestamp;
    var b := best[m].signHash;
    assert d.known[b] == known[b] == best[m];
    assert Supersedes(d.current[m], best[m]);
  }

  lemma {:induction false} AllCurrentBest(d: Dialog, known: Known, visited: set<JsString>, best: map<JsString, Row>)
    requires Sound(d) && d.known.Keys <= known.Keys && !RowClash(d.known, known) && visited <= d.known.Keys
    requires forall sh :: sh in visited <==> Reachable(known, Tails(d.current).Values, sh)
    requires BestOf(known, visited, best)
    ensures forall m :: m in d.current ==> m in best && best[m] == d.current[m]
  {
    forall m | m in d.current
      ensures m in best && best[m] == d.current[m]
    {
      CurrentReachable(d, m);
      HeldPathsStay(d.known, known, Tails(d.current).Values, d.current[m].signHash);
      BestIsCurrent(d, known, visited, best, m);
    }
  }

  lemma {:induction false} BestWithinCurrent(d: Dialog, known: Known, visited: set<JsString>, best: map<JsString, Row>)
    requires Sound(d) && d.known.Keys <= known.Keys && !RowClash(d.known, known) && visited <= d.known.Keys
    requires BestOf(known, visited, best)
    ensures best.Keys <= d.current.Keys
  {
    forall m | m in best
      ensures m in d.current
    {
      assert d.known[best[m].signHash] == best[m];
    }
  }

  lemma {:induction false} RebuiltWithoutClash(d: Dialog, known: Known, visited: set<JsString>, missing: seq<Pointer>, best: map<JsString, Row>)
    requires Sound(d) && d.known.Keys <= known.Keys && !RowClash(d.known, known)
    requires forall sh :: sh in visited <==> Reachable(known, Tails(d.current).Values, sh)
    requires MissingOf(known, visited, missing) && BestOf(known, visited, best)
    ensures missing == [] && best == d.current
  {
    VisitedWithin(d, known, visited);
    NoneMissing(known, visited, missing);
    AllCurrentBest(d, known, visited, best);
    BestWithinCurrent(d, known, visited, best);
    MapsAgree(d.current, best);
  }

  /** From a store that still holds the history the checkpoint was made over, nothing is missing and
      the rebuilt state is the one signed; or one sign hash names two different rows. */
  lemma {:induction false} RebuiltIsSigned(d: Dialog, known: Known, visited: set<JsString>, missing: seq<Pointer>, best: map<JsString, Row>)
    requires Sound(d) && d.known.Keys <= known.Keys
    requires forall sh :: sh in visited <==> Reachable(known, Tails(d.current).Values, sh)
    requires MissingOf(known, visited, missing) && BestOf(known, visited, best)
    ensures (missing == [] && ViewOf(best) == ViewOf(d.current)) || RowClash(d.known, known)
  {
    if !RowClash(d.known, known) {
      RebuiltWithoutClash(d, known, visited, missing, best);
    }
  }

  lemma {:induction false} NoneMissing(known: Known, visited: set<JsString>, missing: seq<Pointer>)
    requires visited <= known.Keys && MissingOf(known, visited, missing)
    ensures missing == []
  {
    assert |missing| > 0 ==> missing[0] in missing && missing[0].sh in Targets(missing);
  }

  /** Paths over revisions a larger store also holds are paths there. */
  lemma {:induction false} HeldPathsStay(known: Known, larger: Known, roots: set<JsString>, sh: JsString)
    requires Reachable(known, roots, sh) && known.Keys <= larger.Keys && !RowClash(known, larger)
    ensures Reachable(larger, roots, sh)
  {
    var path :| Leads(known, roots, path, sh);
    assert Leads(larger, roots, path, sh);
  }

  // ---------- why strictly newest ----------

  /** current rows no older than any other revision, ties allowed. */
  ghost predicate CurrentNotOlder(known: Known, current: map<JsString, Row>) {
    forall a :: a in known ==> known[a].messageId in current && current[known[a].messageId].timestamp >= known[a].timestamp
  }

  /** Two revisions of m with one timestamp, cited by one later message each. */
  function TiedRows(m: JsString, n: JsString, p: JsString, ids: seq<JsString>): seq<Row>
    requires |ids| == 4
  {
    [Row(m, ids[0], None, Some(map[]), 1, false), Row(m, ids[1], None, Some(map[]), 1, false),
     Row(n, ids[2], None, Some(map[m := ids[0]]), 2, false), Row(p, ids[3], None, Some(map[m := ids[1]]), 2, false)]
  }

  lemma {:induction false} SecondCites(known: Known, path: seq<JsString>)
    requires Steps(known, path)
    ensures |path| > 2 ==> path[1] in known && Cites(known[path[1]]) != {}
  {
    assert |path| > 2 ==> path[1 + 1] in Cites(known[path[1]]);
  }

  lemma {:induction false} NoLongWalk(known: Known)
    requires forall x, y :: x in known && y in Cites(known[x]) && y in known ==> Cites(known[y]) == {} && y != x
    ensures Acyclic(known)
  {
    forall x, path: seq<JsString> | x in known && |path| > 1 && path[0] == x && Steps(known, path)
      ensures path[|path| - 1] != x
    {
      assert path[0] in known && path[1] in Cites(known[path[0]]);
      SecondCites(known, path);
    }
  }

  lemma {:induction false} PathGetsOlder(known: Known, path: seq<JsString>, n: nat)
    requires forall x, y :: x in known && y in Cites(known[x]) && y in known ==> known[y].timestamp < known[x].timestamp
    requires Steps(known, path) && 0 < n < |path| && path[n] in known
    ensures path[0] in known && known[path[n]].timestamp < known[path[0]].timestamp
  {
    assert path[n - 1] in known && path[n - 1 + 1] in Cites(known[path[n - 1]]);
    if n > 1 {
      PathGetsOlder(known, path, n - 1);
    }
  }

  /** Revisions that cite only older ones have no cycle. */
  lemma {:induction false} OlderCitedAcyclic(known: Known)
    requires forall x, y :: x in known && y in Cites(known[x]) && y in known ==> known[y].timestamp < known[x].timestamp
    ensures Acyclic(known)
  {
    forall a, path: seq<JsString> | a in known && |path| > 1 && path[0] == a && Steps(known, path)
      ensures path[|path| - 1] != a
    {
      if path[|path| - 1] in known {
        PathGetsOlder(known, path, |path| - 1);
      }
    }
  }

  lemma {:induction false} OneRefCites(r: Row, k: JsString, v: JsString)
    requires r.parent.None? && r.refs == Some(map[k := v])
    ensures Cites(r) == {v}
  {
    var refs := map[k := v];
    assert k in refs && refs[k] == v && forall x :: x in refs.Values ==> x == v;
  }

  /** Which rows are cited decides the tails: with either revision of m current, n and p are. */
  lemma {:induction false} TiedTails(current: map<JsString, Row>, m: JsString, n: JsString, p: JsString, x: Row, t: Row, u: Row)
    requires m != n && m != p && n != p && current == map[m := x, n := t, p := u] && x != t && x != u && t != u
    requires CitesPair(t, x) || CitesPair(u, x)
    requires !CitesPair(x, t) && !CitesPair(x, u) && !CitesPair(t, u) && !CitesPair(u, t)
    ensures Tails(current) == map[n := t.signHash, p := u.signHash]
  {
    assert current[m] == x && current[n] == t && current[p] == u;
    assert !IsTail(current, x) && IsTail(current, t) && IsTail(current, u);
  }

  /** With tied timestamps two closed, acyclic histories over the same revisions can share a frontier and
      still show different views: the case INCONSISTENT_VIEW names. */
  lemma {:induction false} TiesAllowTwoViews(m: JsString, n: JsString, p: JsString, ids: seq<JsString>)
    returns (known: Known, current: map<JsString, Row>, current': map<JsString, Row>)
    requires m != n && m != p && n != p && |ids| == 4
    requires ids[0] != ids[1] && ids[0] != ids[2] && ids[0] != ids[3] && ids[1] != ids[2] && ids[1] != ids[3] && ids[2] != ids[3]
    ensures Keyed(known) && CausallyClosed(known) && Acyclic(known)
    ensures CurrentKnown(known, current) && CurrentNotOlder(known, current)
    ensures CurrentKnown(known, current') && CurrentNotOlder(known, current')
    ensures Tails(current) == Tails(current') && ViewOf(current) != ViewOf(current')
  {
    var rows := TiedRows(m, n, p, ids);
    known := map[ids[0] := rows[0], ids[1] := rows[1], ids[2] := rows[2], ids[3] := rows[3]];
    current := map[m := rows[0], n := rows[2], p := rows[3]];
    current' := map[m := rows[1], n := rows[2], p := rows[3]];
    TiedKnown(ids, rows[0], rows[1], rows[2], rows[3], known);
    TiedCurrent(m, n, p, ids, known, current, rows[0]);
    TiedCurrent(m, n, p, ids, known, current', rows[1]);
    TiedTails(current, m, n, p, rows[0], rows[2], rows[3]);
    TiedTails(current', m, n, p, rows[1], rows[2], rows[3]);
    assert ViewOf(current)[m] != ViewOf(current')[m];
  }

  lemma {:induction false} TiedCurrent(m: JsString, n: JsString, p: JsString, ids: seq<JsString>, known: Known, current: map<JsString, Row>, x: Row)
    requires m != n && m != p && n != p && |ids| == 4
    requires ids[0] != ids[1] && ids[0] != ids[2] && ids[0] != ids[3] && ids[1] != ids[2] && ids[1] != ids[3] && ids[2] != ids[3]
    requires var r := TiedRows(m, n, p, ids);
             && known == map[ids[0] := r[0], ids[1] := r[1], ids[2] := r[2], ids[3] := r[3]]
             && current == map[m := x, n := r[2], p := r[3]] && (x == r[0] || x == r[1])
    ensures CurrentKnown(known, current) && CurrentNotOlder(known, current)
  {
    var r := TiedRows(m, n, p, ids);
    assert known[ids[0]] == r[0] && known[ids[1]] == r[1] && known[ids[2]] == r[2] && known[ids[3]] == r[3];
    assert current[m] == x && current[n] == r[2] && current[p] == r[3];
  }

  lemma {:induction false} TiedKnown(ids: seq<JsString>, a: Row, b: Row, t: Row, u: Row, known: Known)
    requires |ids| == 4 && ids[0] != ids[1] && ids[0] != ids[2] && ids[0] != ids[3] && ids[1] != ids[2] && ids[1] != ids[3] && ids[2] != ids[3]
    requires known == map[ids[0] := a, ids[1] := b, ids[2] := t, ids[3] := u]
    requires a.signHash == ids[0] && b.signHash == ids[1] && t.signHash == ids[2] && u.signHash == ids[3]
    requires a.parent.None? && b.parent.None? && t.parent.None? && u.parent.None?
    requires a.refs == b.refs == Some(map[])
    requires exists k :: t.refs == Some(map[k := ids[0]])
    requires exists k :: u.refs == Some(map[k := ids[1]])
    ensures Keyed(known) && CausallyClosed(known) && Acyclic(known)
  {
    var k :| t.refs == Some(map[k := ids[0]]);
    var l :| u.refs == Some(map[l := ids[1]]);
    OneRefCites(t, k, ids[0]);
    OneRefCites(u, l, ids[1]);
    TiedCites(ids, a, b, t, u, known);
    NoLongWalk(known);
  }

  lemma {:induction false} TiedCites(ids: seq<JsString>, a: Row, b: Row, t: Row, u: Row, known: Known)
    requires |ids| == 4 && ids[0] != ids[1] && ids[0] != ids[2] && ids[0] != ids[3] && ids[1] != ids[2] && ids[1] != ids[3] && ids[2] != ids[3]
    requires known == map[ids[0] := a, ids[1] := b, ids[2] := t, ids[3] := u]
    requires a.parent.None? && b.parent.None? && a.refs == b.refs == Some(map[])
    requires Cites(t) == {ids[0]} && Cites(u) == {ids[1]}
    ensures forall x, y :: x in known && y in Cites(known[x]) && y in known ==> Cites(known[y]) == {} && y != x
    ensures CausallyClosed(known)
  {
    assert Cites(a) == {} && Cites(b) == {};
    forall x | x in known
      ensures Cites(known[x]) <= {ids[0], ids[1]} && (x in {ids[0], ids[1]} ==> Cites(known[x]) == {})
    {
    }
  }
}
