/** The worklist of diffDialogCheckpoint: rebuilding, per message, the newest revision under a frontier. */
module CheckpointWorklist {
  import opened Prelude
  import opened JsText
  import opened Records
  import opened DialogRows

  /** A queued citation; also how a missing revision is reported. */
  datatype Pointer = Pointer(mid: JsString, sh: JsString)

  function Targets(q: seq<Pointer>): set<JsString> {
    set p | p in q :: p.sh
  }

  /** A finite set with every hash the search could meet; what makes it end. */
  ghost predicate Covers(u: set<JsString>, known: Known, roots: set<JsString>) {
    roots <= u && forall a :: a in known ==> Cites(known[a]) <= u
  }

  lemma {:induction false} SomeCover(known: Known, roots: set<JsString>) returns (u: set<JsString>)
    ensures Covers(u, known, roots)
  {
    u := roots + set a, c | a in known && c in Cites(known[a]) :: c;
  }

  /** best holds, for every message with a revision in s, one of its revisions in s with the greatest timestamp. */
  ghost predicate BestOf(known: Known, s: set<JsString>, best: map<JsString, Row>) {
    && (forall sh :: sh in s && sh in known ==>
          known[sh].messageId in best && known[sh].timestamp <= best[known[sh].messageId].timestamp)
    && (forall m :: m in best ==>
          best[m].messageId == m && best[m].signHash in s && best[m].signHash in known && known[best[m].signHash] == best[m])
  }

  ghost predicate MissingOf(known: Known, s: set<JsString>, missing: seq<Pointer>) {
    && (forall i, j :: 0 <= i < j < |missing| ==> missing[i].sh != missing[j].sh)
    && Targets(missing) == s - known.Keys
  }

  /** The row cites the revision by this message: its own, for the parent, or the one its refs name. */
  ghost predicate CitesAs(r: Row, p: Pointer) {
    (r.parent == Some(p.sh) && p.mid == r.messageId) || (r.refs.Some? && p.mid in r.refs.value && r.refs.value[p.mid] == p.sh)
  }

  /** The pointer is an entry of the frontier, or a citation of some visited revision. */
  ghost predicate CitedBy(known: Known, frontier: map<JsString, JsString>, visited: set<JsString>, p: Pointer) {
    (p.mid in frontier && frontier[p.mid] == p.sh) || exists a :: a in visited && a in known && CitesAs(known[a], p)
  }

  ghost function Citations(known: Known, frontier: map<JsString, JsString>, visited: set<JsString>): iset<Pointer> {
    iset p: Pointer | CitedBy(known, frontier, visited, p)
  }

  ghost function Pointers(ps: seq<Pointer>): iset<Pointer> {
    iset p | p in ps
  }

  ghost predicate Cited(known: Known, frontier: map<JsString, JsString>, visited: set<JsString>, ps: seq<Pointer>) {
    Pointers(ps) <= Citations(known, frontier, visited)
  }

  lemma {:induction false} CitedAfterVisit(known: Known, frontier: map<JsString, JsString>, visited: set<JsString>, ps: seq<Pointer>, qs: seq<Pointer>, sh: JsString)
    requires Cited(known, frontier, visited, ps)
    requires forall q :: q in qs ==> q in ps || (sh in known && CitesAs(known[sh], q))
    ensures Cited(known, frontier, visited + {sh}, qs)
  {
    forall q | q in qs
      ensures CitedBy(known, frontier, visited + {sh}, q)
    {
      if q in ps && !(q.mid in frontier && frontier[q.mid] == q.sh) {
        assert q in Pointers(ps) && CitedBy(known, frontier, visited, q);
        var a :| a in visited && a in known && CitesAs(known[a], q);
        assert a in visited + {sh};
      }
    }
  }

  /** Pushing Object.entries(refs), in whatever order they come. */
  method PushRefs(queue: seq<Pointer>, refs: map<JsString, JsString>) returns (q: seq<Pointer>)
    ensures Targets(q) == Targets(queue) + refs.Values
    ensures forall p :: p in q ==> p in queue || (p.mid in refs && refs[p.mid] == p.sh)
  {
    q := queue;
    var todo := refs.Keys;
    while todo != {}
      invariant todo <= refs.Keys
      invariant forall p :: p in q ==> p in queue || (p.mid in refs && refs[p.mid] == p.sh)
      invariant Targets(q) == Targets(queue) + set m | m in refs.Keys - todo :: refs[m]
      decreases todo
    {
      var m :| m in todo;
      todo := todo - {m};
      q := q + [Pointer(m, refs[m])];
      assert refs.Keys - todo == (refs.Keys - (todo + {m})) + {m};
      assert Targets(q) == Targets(q[..|q| - 1]) + {refs[m]};
    }
    assert (set m | m in refs.Keys :: refs[m]) == refs.Values;
  }

  method PushCitations(queue: seq<Pointer>, row: Row) returns (q: seq<Pointer>)
    ensures Targets(q) == Targets(queue) + Cites(row)
    ensures forall p :: p in q ==> p in queue || CitesAs(row, p)
  {
    q := queue;
    if row.parent.Some? {
      q := q + [Pointer(row.messageId, row.parent.value)];
      assert Targets(q) == Targets(queue) + {row.parent.value};
    }
    if row.refs.Some? {
      q := PushRefs(q, row.refs.value);
    }
  }

  /** w is what was visited or is still queued. */
  ghost predicate Reaches(known: Known, roots: set<JsString>, visited: set<JsString>, w: set<JsString>) {
    && visited <= w && roots <= w
    && (forall a :: a in visited && a in known ==> Cites(known[a]) <= w)
    && (forall a :: a in w ==> Reachable(known, roots, a))
  }

  ghost predicate Frame(u: set<JsString>, known: Known, roots: set<JsString>, queue: seq<Pointer>, visited: set<JsString>) {
    Covers(u, known, roots) && visited + Targets(queue) <= u && Reaches(known, roots, visited, visited + Targets(queue))
  }

  function BetterOf(best: map<JsString, Row>, row: Row): map<JsString, Row> {
    if row.messageId !in best || row.timestamp > best[row.messageId].timestamp then best[row.messageId := row] else best
  }

  lemma {:induction false} BestAfterVisit(known: Known, s: set<JsString>, best: map<JsString, Row>, sh: JsString)
    requires Keyed(known) && BestOf(known, s, best)
    ensures sh in known ==> BestOf(known, s + {sh}, BetterOf(best, known[sh]))
    ensures sh !in known ==> BestOf(known, s + {sh}, best)
  {
  }

  lemma {:induction false} MissingAfterVisit(known: Known, s: set<JsString>, missing: seq<Pointer>, p: Pointer)
    requires MissingOf(known, s, missing) && p.sh !in s
    ensures p.sh in known ==> MissingOf(known, s + {p.sh}, missing)
    ensures p.sh !in known ==> MissingOf(known, s + {p.sh}, missing + [p])
  {
    assert Targets(missing + [p]) == Targets(missing) + {p.sh};
    assert forall i :: 0 <= i < |missing| ==> missing[i] in missing && missing[i].sh in Targets(missing);
  }

  ghost predicate Progress(u: set<JsString>, known: Known, frontier: map<JsString, JsString>, queue: seq<Pointer>, visited: set<JsString>,
                           missing: seq<Pointer>, best: map<JsString, Row>) {
    && Keyed(known) && Frame(u, known, frontier.Values, queue, visited)
    && MissingOf(known, visited, missing) && BestOf(known, visited, best)
    && Cited(known, frontier, visited, queue) && Cited(known, frontier, visited, missing)
  }

  lemma {:induction false} PopTargets(queue: seq<Pointer>)
    requires queue != []
    ensures Targets(queue) == Targets(queue[..|queue| - 1]) + {queue[|queue| - 1].sh}
  {
    assert queue == queue[..|queue| - 1] + [queue[|queue| - 1]];
  }

  /** A revision already visited is dropped. */
  lemma {:induction false} SkipStep(u: set<JsString>, known: Known, roots: set<JsString>, queue: seq<Pointer>, visited: set<JsString>, q: seq<Pointer>, sh: JsString)
    requires Frame(u, known, roots, queue, visited) && Targets(queue) == Targets(q) + {sh} && sh in visited
    ensures Frame(u, known, roots, q, visited)
  {
    assert visited + Targets(q) == visited + Targets(queue);
  }

  /** An unknown revision is reported once and cites nothing. */
  lemma {:induction false} MissStep(u: set<JsString>, known: Known, roots: set<JsString>, queue: seq<Pointer>, visited: set<JsString>, q: seq<Pointer>, sh: JsString)
    requires Frame(u, known, roots, queue, visited) && Targets(queue) == Targets(q) + {sh} && sh !in known
    ensures Frame(u, known, roots, q, visited + {sh})
  {
    assert visited + {sh} + Targets(q) == visited + Targets(queue);
  }

  lemma {:induction false} CitedReachable(known: Known, roots: set<JsString>, w: set<JsString>, sh: JsString)
    requires (forall a :: a in w ==> Reachable(known, roots, a)) && sh in w && sh in known
    ensures forall a :: a in w + Cites(known[sh]) ==> Reachable(known, roots, a)
  {
    forall a | a in Cites(known[sh])
      ensures Reachable(known, roots, a)
    {
      StepReachable(known, roots, sh, a);
    }
  }

  lemma {:induction false} CitedWithin(known: Known, visited: set<JsString>, w: set<JsString>, sh: JsString)
    requires (forall a :: a in visited && a in known ==> Cites(known[a]) <= w) && sh in known
    ensures forall a :: a in visited + {sh} && a in known ==> Cites(known[a]) <= w + Cites(known[sh])
  {
  }

  lemma {:induction false} ReachesFurther(known: Known, roots: set<JsString>, visited: set<JsString>, w: set<JsString>, sh: JsString)
    requires Reaches(known, roots, visited, w) && sh in w && sh in known
    ensures Reaches(known, roots, visited + {sh}, w + Cites(known[sh]))
  {
    CitedReachable(known, roots, w, sh);
    CitedWithin(known, visited, w, sh);
  }

  lemma {:induction false} VisitedAndQueued(visited: set<JsString>, rest: set<JsString>, cited: set<JsString>, sh: JsString)
    ensures visited + {sh} + (rest + cited) == visited + (rest + {sh}) + cited
  {
  }

  /** A known revision queues what it cites. */
  lemma {:induction false} VisitStep(u: set<JsString>, known: Known, roots: set<JsString>, queue: seq<Pointer>, visited: set<JsString>, rest: seq<Pointer>, sh: JsString, q: seq<Pointer>)
    requires Frame(u, known, roots, queue, visited) && Targets(queue) == Targets(rest) + {sh} && sh in known
    requires Targets(q) == Targets(rest) + Cites(known[sh])
    ensures Frame(u, known, roots, q, visited + {sh})
  {
    var w := visited + Targets(queue);
    ReachesFurther(known, roots, visited, w, sh);
    VisitedAndQueued(visited, Targets(rest), Cites(known[sh]), sh);
  }

  lemma {:induction false} RootsFrame(known: Known, roots: set<JsString>, queue: seq<Pointer>) returns (u: set<JsString>)
    requires Targets(queue) == roots
    ensures Frame(u, known, roots, queue, {})
  {
    u := SomeCover(known, roots);
    forall sh | sh in roots
      ensures Reachable(known, roots, sh)
    {
      RootReachable(known, roots, sh);
    }
    assert {} + Targets(queue) == roots;
  }

  lemma {:induction false} DoneFrame(u: set<JsString>, known: Known, roots: set<JsString>, visited: set<JsString>)
    requires Frame(u, known, roots, [], visited)
    ensures forall sh :: sh in visited <==> Reachable(known, roots, sh)
  {
    assert Targets([]) == {};
    ClosedHoldsReachable(known, roots, visited);
  }

  lemma {:induction false} NextCovered(u: set<JsString>, known: Known, frontier: map<JsString, JsString>, queue: seq<Pointer>, visited: set<JsString>,
      missing: seq<Pointer>, best: map<JsString, Row>)
    requires Progress(u, known, frontier, queue, visited, missing, best) && queue != []
    ensures queue == queue[..|queue| - 1] + [queue[|queue| - 1]] && queue[|queue| - 1].sh in u
  {
    assert queue[|queue| - 1] in queue;
  }

  lemma {:induction false} ProgressStarts(known: Known, frontier: seq<Entry<JsString>>, queue: seq<Pointer>) returns (u: set<JsString>)
    requires Keyed(known) && Distinct(frontier) && |queue| == |frontier|
    requires forall i :: 0 <= i < |frontier| ==> queue[i] == Pointer(frontier[i].key, frontier[i].value)
    ensures Progress(u, known, RecordOf(frontier), queue, {}, [], map[])
  {
    RootsQueued(frontier, queue);
    u := RootsFrame(known, RecordOf(frontier).Values, queue);
    assert Targets([]) == {} - known.Keys;
  }

  /** The revisions start at the frontier and follow both the chain of parents and the refs. */
  ghost predicate FollowsBoth(known: Known, frontier: map<JsString, JsString>, visited: set<JsString>) {
    && frontier.Values <= visited
    && (forall sh :: sh in visited && sh in known && known[sh].parent.Some? ==> known[sh].parent.value in visited)
    && (forall sh :: sh in visited && sh in known && known[sh].refs.Some? ==> known[sh].refs.value.Values <= visited)
  }

  lemma {:induction false} ProgressEnds(u: set<JsString>, known: Known, frontier: map<JsString, JsString>, visited: set<JsString>,
      missing: seq<Pointer>, best: map<JsString, Row>)
    requires Progress(u, known, frontier, [], visited, missing, best)
    ensures forall sh :: sh in visited <==> Reachable(known, frontier.Values, sh)
    ensures MissingOf(known, visited, missing) && Cited(known, frontier, visited, missing) && BestOf(known, visited, best)
    ensures FollowsBoth(known, frontier, visited)
  {
    DoneFrame(u, known, frontier.Values, visited);
    forall sh | sh in visited && sh in known
      ensures known[sh].parent.Some? ==> known[sh].parent.value in visited
      ensures known[sh].refs.Some? ==> known[sh].refs.value.Values <= visited
    {
      assert Cites(known[sh]) <= visited + Targets([]);
    }
  }

  lemma {:induction false} ProgressSkipping(u: set<JsString>, known: Known, frontier: map<JsString, JsString>, rest: seq<Pointer>, p: Pointer,
      visited: set<JsString>, missing: seq<Pointer>, best: map<JsString, Row>)
    requires Progress(u, known, frontier, rest + [p], visited, missing, best) && p.sh in visited
    ensures Progress(u, known, frontier, rest, visited, missing, best)
  {
    PopTargets(rest + [p]);
    SkipStep(u, known, frontier.Values, rest + [p], visited, rest, p.sh);
  }

  lemma {:induction false} ProgressMissing(u: set<JsString>, known: Known, frontier: map<JsString, JsString>, rest: seq<Pointer>, p: Pointer,
      visited: set<JsString>, missing: seq<Pointer>, best: map<JsString, Row>)
    requires Progress(u, known, frontier, rest + [p], visited, missing, best) && p.sh !in visited && p.sh !in known
    ensures Progress(u, known, frontier, rest, visited + {p.sh}, missing + [p], best)
  {
    PopTargets(rest + [p]);
    MissingAfterVisit(known, visited, missing, p);
    BestAfterVisit(known, visited, best, p.sh);
    MissStep(u, known, frontier.Values, rest + [p], visited, rest, p.sh);
    CitedAfterVisit(known, frontier, visited, rest + [p], rest, p.sh);
    CitedAfterVisit(known, frontier, visited, missing + (rest + [p]), missing + [p], p.sh);
  }

  lemma {:induction false} ProgressVisiting(u: set<JsString>, known: Known, frontier: map<JsString, JsString>, rest: seq<Pointer>, p: Pointer,
      visited: set<JsString>, missing: seq<Pointer>, best: map<JsString, Row>, q: seq<Pointer>)
    requires Progress(u, known, frontier, rest + [p], visited, missing, best) && p.sh !in visited && p.sh in known
    requires Targets(q) == Targets(rest) + Cites(known[p.sh]) && forall x :: x in q ==> x in rest || CitesAs(known[p.sh], x)
    ensures Progress(u, known, frontier, q, visited + {p.sh}, missing, BetterOf(best, known[p.sh]))
  {
    PopTargets(rest + [p]);
    MissingAfterVisit(known, visited, missing, p);
    BestAfterVisit(known, visited, best, p.sh);
    VisitStep(u, known, frontier.Values, rest + [p], visited, rest, p.sh, q);
    CitedAfterVisit(known, frontier, visited, rest + [p], q, p.sh);
    CitedAfterVisit(known, frontier, visited, missing, missing, p.sh);
  }

  /** What one visit does: an unknown revision is reported, a known one queues its citations and may be the best. */
  ghost predicate AfterVisit(known: Known, p: Pointer, rest: seq<Pointer>, missing: seq<Pointer>, best: map<JsString, Row>,
                             q: seq<Pointer>, missing': seq<Pointer>, best': map<JsString, Row>) {
    if p.sh in known then
      && Targets(q) == Targets(rest) + Cites(known[p.sh]) && (forall x :: x in q ==> x in rest || CitesAs(known[p.sh], x))
      && missing' == missing && best' == BetterOf(best, known[p.sh])
    else q == rest && missing' == missing + [p] && best' == best
  }

  /** The body of the loop for a revision not visited before. */
  method Visit(known: Known, p: Pointer, rest: seq<Pointer>, missing: seq<Pointer>, best: map<JsString, Row>)
    returns (queue': seq<Pointer>, missing': seq<Pointer>, best': map<JsString, Row>)
    ensures AfterVisit(known, p, rest, missing, best, queue', missing', best')
  {
    if p.sh !in known {
      return rest, missing + [p], best;
    }
    var row := known[p.sh];
    best' := best;
    if row.messageId !in best || row.timestamp > best[row.messageId].timestamp {
      best' := best[row.messageId := row];
    }
    missing' := missing;
    queue' := PushCitations(rest, row);
  }

  /** One visit keeps the search invariant. */
  lemma {:induction false} VisitKeepsProgress(u: set<JsString>, known: Known, frontier: map<JsString, JsString>, rest: seq<Pointer>, p: Pointer,
      visited: set<JsString>, missing: seq<Pointer>, best: map<JsString, Row>, q: seq<Pointer>, missing': seq<Pointer>, best': map<JsString, Row>)
    requires Progress(u, known, frontier, rest + [p], visited, missing, best) && p.sh !in visited
    requires AfterVisit(known, p, rest, missing, best, q, missing', best')
    ensures Progress(u, known, frontier, q, visited + {p.sh}, missing', best')
    ensures u - (visited + {p.sh}) < u - visited
  {
    NextCovered(u, known, frontier, rest + [p], visited, missing, best);
    assert p.sh in u - visited && p.sh !in u - (visited + {p.sh});
    if p.sh in known {
      ProgressVisiting(u, known, frontier, rest, p, visited, missing, best, q);
    } else {
      ProgressMissing(u, known, frontier, rest, p, visited, missing, best);
    }
  }

  /** The loop of diffDialogCheckpoint. Whatever the order refs are pushed in, it ends having visited exactly the
      reachable revisions, reports one missing exactly when it is reachable and unknown, and keeps per message a
      reachable revision of greatest timestamp. */
  method Closure(known: Known, frontier: seq<Entry<JsString>>)
    returns (visited: set<JsString>, missing: seq<Pointer>, best: map<JsString, Row>)
    requires Keyed(known) && Distinct(frontier)
    ensures forall sh :: sh in visited <==> Reachable(known, RecordOf(frontier).Values, sh)
    ensures FollowsBoth(known, RecordOf(frontier), visited)
    ensures MissingOf(known, visited, missing) && Cited(known, RecordOf(frontier), visited, missing)
    ensures BestOf(known, visited, best)
  {
    ghost var signed := RecordOf(frontier);
    var queue := seq(|frontier|, i requires 0 <= i < |frontier| => Pointer(frontier[i].key, frontier[i].value));
    ghost var u := ProgressStarts(known, frontier, queue);
    visited, missing, best := {}, [], map[];
    while queue != []
      invariant Progress(u, known, signed, queue, visited, missing, best) == true
      decreases u - visited, |queue|
    {
      var p := queue[|queue| - 1];
      var rest := queue[..|queue| - 1];
      NextCovered(u, known, signed, queue, visited, missing, best);
      if p.sh in visited {
        ProgressSkipping(u, known, signed, rest, p, visited, missing, best);
        queue := rest;
      } else {
        ghost var missing0, best0 := missing, best;
        queue, missing, best := Visit(known, p, rest, missing, best);
        VisitKeepsProgress(u, known, signed, rest, p, visited, missing0, best0, queue, missing, best);
        visited := visited + {p.sh};
      }
    }
    ProgressEnds(u, known, signed, visited, missing, best);
  }

  lemma {:induction false} RootsQueued(frontier: seq<Entry<JsString>>, queue: seq<Pointer>)
    requires Distinct(frontier) && |queue| == |frontier|
    requires forall i :: 0 <= i < |frontier| ==> queue[i] == Pointer(frontier[i].key, frontier[i].value)
    ensures Targets(queue) == RecordOf(frontier).Values
    ensures forall p :: p in queue ==> p.mid in RecordOf(frontier) && RecordOf(frontier)[p.mid] == p.sh
  {
    RecordHas(frontier);
    var f := RecordOf(frontier);
    forall sh | sh in f.Values
      ensures sh in Targets(queue)
    {
      var k :| k in f && f[k] == sh;
      var i :| 0 <= i < |frontier| && frontier[i].key == k;
      assert queue[i] in queue;
    }
    forall sh | sh in Targets(queue)
      ensures sh in f.Values
    {
      var p :| p in queue && p.sh == sh;
      var i :| 0 <= i < |queue| && queue[i] == p;
      assert frontier[i].key in f && f[frontier[i].key] == sh;
    }
  }

  lemma {:induction false} BestNotOlder(known: Known, s: set<JsString>, best: map<JsString, Row>, best': map<JsString, Row>, m: JsString)
    requires BestOf(known, s, best) && BestOf(known, s, best') && m in best
    ensures m in best' && best[m].timestamp <= best'[m].timestamp
  {
    assert known[best[m].signHash].messageId == m;
  }

  lemma {:induction false} SameBestTimes(known: Known, s: set<JsString>, best: map<JsString, Row>, best': map<JsString, Row>)
    requires BestOf(known, s, best) && BestOf(known, s, best')
    ensures best.Keys == best'.Keys && forall m :: m in best ==> best[m].timestamp == best'[m].timestamp
  {
    forall m | m in best || m in best'
      ensures m in best && m in best' && best[m].timestamp == best'[m].timestamp
    {
      if m in best { BestNotOlder(known, s, best, best', m); }
      if m in best' { BestNotOlder(known, s, best', best, m); }
    }
  }

  /** No two known revisions of one message among the given ones tie in time. */
  ghost predicate NoTies(known: Known, s: set<JsString>) {
    forall a, b :: a in s && b in s && a in known && b in known && a != b && known[a].messageId == known[b].messageId ==>
                     known[a].timestamp != known[b].timestamp
  }

  lemma {:induction false} SameBest(known: Known, s: set<JsString>, best: map<JsString, Row>, best': map<JsString, Row>, m: JsString)
    requires BestOf(known, s, best) && BestOf(known, s, best') && NoTies(known, s)
    ensures SameAt(best, best', m)
  {
    if m in best { BestNotOlder(known, s, best, best', m); }
    if m in best' { BestNotOlder(known, s, best', best, m); }
    if m in best && m in best' {
      var a, b := best[m].signHash, best'[m].signHash;
      assert known[a] == best[m] && known[b] == best'[m];
    }
  }

  predicate SameAt(best: map<JsString, Row>, best': map<JsString, Row>, m: JsString) {
    (m in best <==> m in best') && (m in best ==> best[m] == best'[m])
  }

  lemma {:induction false} SomeDifference(best: map<JsString, Row>, best': map<JsString, Row>) returns (m: JsString)
    ensures best == best' || !SameAt(best, best', m)
  {
    m := *;
    if k: JsString :| !SameAt(best, best', k) {
      m := k;
    } else {
      assert forall k :: k in best ==> SameAt(best, best', k);
      assert forall k :: k in best' ==> SameAt(best, best', k);
    }
  }

  lemma {:induction false} SameBests(known: Known, s: set<JsString>, best: map<JsString, Row>, best': map<JsString, Row>)
    requires BestOf(known, s, best) && BestOf(known, s, best') && NoTies(known, s)
    ensures best == best'
  {
    if best != best' {
      var m := SomeDifference(best, best');
      SameBest(known, s, best, best', m);
    }
  }

  /** Pop order cannot show: two runs agree on what was visited and on what is missing, and on the best
      revision of every message whose newest reachable revision is unique. */
  lemma {:induction false} OrderCannotShow(known: Known, s: set<JsString>, missing: seq<Pointer>, missing': seq<Pointer>, best: map<JsString, Row>, best': map<JsString, Row>)
    requires Keyed(known)
    requires MissingOf(known, s, missing) && MissingOf(known, s, missing')
    requires BestOf(known, s, best) && BestOf(known, s, best')
    ensures Targets(missing) == Targets(missing') && |missing| == |missing'|
    ensures best.Keys == best'.Keys && forall m :: m in best ==> best[m].timestamp == best'[m].timestamp
    ensures NoTies(known, s) ==> best == best'
  {
    SameMissing(known, s, missing, missing');
    SameBestTimes(known, s, best, best');
    if NoTies(known, s) {
      SameBests(known, s, best, best');
    }
  }

  lemma {:induction false} SameMissing(known: Known, s: set<JsString>, missing: seq<Pointer>, missing': seq<Pointer>)
    requires MissingOf(known, s, missing) && MissingOf(known, s, missing')
    ensures Targets(missing) == Targets(missing') && |missing| == |missing'|
  {
    DistinctCount(missing);
    DistinctCount(missing');
  }

  lemma {:induction false} DistinctCount(ps: seq<Pointer>)
    requires forall i, j :: 0 <= i < j < |ps| ==> ps[i].sh != ps[j].sh
    ensures |Targets(ps)| == |ps|
  {
    if ps != [] {
      var rest := ps[..|ps| - 1];
      var p := ps[|ps| - 1];
      DistinctCount(rest);
      assert ps == rest + [p];
      assert p.sh !in Targets(rest);
      assert Targets(ps) == Targets(rest) + {p.sh};
    } else {
      assert Targets(ps) == {};
    }
  }
}
