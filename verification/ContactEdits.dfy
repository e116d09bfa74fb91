/** Optimistic contact edits and their take-back (userPQ.store.js). */
module ContactEdits {
  import opened Prelude
  import opened JsText

  type Contacts<C> = map<JsString, C>

  function Lookup<C>(m: Contacts<C>, h: JsString): Option<C> {
    if h in m then Some(m[h]) else None
  }

  /** `if (v === undefined) delete m[h]; else m[h] = v` */
  function Put<C>(m: Contacts<C>, h: JsString, v: Option<C>): Contacts<C> {
    match v case None => m - {h} case Some(c) => m[h := c]
  }

  /** An edit still out: what the contacts it touches go back to if it fails. */
  datatype Edit<C> = Edit(generation: nat, before: map<JsString, Option<C>>)

  // ---------- the history of a session ----------

  datatype Status = Out | Accepted | Failed

  /** An edit that was made: what it showed for each contact it touched, and what became of it. */
  datatype Past<C> = Past(values: map<JsString, Option<C>>, status: Status)

  /** What a contact should show after the first n edits: the value of the newest one of it that has not
      failed, or what it showed before any. */
  function Wanted<C>(base: Contacts<C>, history: seq<Past<C>>, n: nat, h: JsString): Option<C>
    requires n <= |history|
  {
    if n == 0 then Lookup(base, h)
    else if h in history[n - 1].values && history[n - 1].status != Failed then history[n - 1].values[h]
    else Wanted(base, history, n - 1, h)
  }

  predicate Touches<C>(p: Past<C>, h: JsString) { h in p.values }

  ghost predicate LiveAfter<C>(history: seq<Past<C>>, k: nat, n: nat, h: JsString)
    requires n <= |history|
  {
    exists j :: k < j < n && Touches(history[j], h) && history[j].status != Failed
  }

  lemma {:induction false} WantedIgnoresLater<C>(base: Contacts<C>, history: seq<Past<C>>, longer: seq<Past<C>>, n: nat, h: JsString)
    requires n <= |history| && n <= |longer| && history[..n] == longer[..n]
    ensures Wanted(base, history, n, h) == Wanted(base, longer, n, h)
  {
    if n > 0 {
      assert history[n - 1] == history[..n][n - 1] == longer[n - 1];
      assert history[..n - 1] == history[..n][..n - 1] == longer[..n - 1];
      WantedIgnoresLater(base, history, longer, n - 1, h);
    }
  }

  /** A failure shows only where nothing live came after it. */
  lemma {:induction false} WantedAfterFailure<C>(base: Contacts<C>, history: seq<Past<C>>, k: nat, n: nat, h: JsString)
    requires k < |history| && n <= |history|
    ensures var failed := history[k := history[k].(status := Failed)];
            Wanted(base, failed, n, h) ==
              if n <= k || !Touches(history[k], h) || LiveAfter(history, k, n, h) then Wanted(base, history, n, h)
              else Wanted(base, history, k, h)
  {
    var failed := history[k := history[k].(status := Failed)];
    if n <= k {
      WantedIgnoresLater(base, history, failed, n, h);
    } else if n == k + 1 {
      WantedIgnoresLater(base, history, failed, k, h);
    } else {
      WantedAfterFailure(base, history, k, n - 1, h);
      assert failed[n - 1] == history[n - 1];
      if Touches(history[n - 1], h) && history[n - 1].status != Failed {
        assert LiveAfter(history, k, n, h);
      } else {
        assert LiveAfter(history, k, n, h) <==> LiveAfter(history, k, n - 1, h);
      }
    }
  }

  /** Acceptance changes nothing that is shown. */
  lemma {:induction false} WantedAfterAcceptance<C>(base: Contacts<C>, history: seq<Past<C>>, k: nat, n: nat, h: JsString)
    requires k < |history| && n <= |history| && history[k].status == Out
    ensures Wanted(base, history[k := history[k].(status := Accepted)], n, h) == Wanted(base, history, n, h)
  {
    if n > 0 {
      WantedAfterAcceptance(base, history, k, n - 1, h);
    }
  }

  // ---------- a session ----------

  /** The contacts session: `{ editsOut, acceptedOf }`. Edit number k of the session has generation start + k + 1. */
  class Session<C(!new)> {
    var editsOut: seq<Edit<C>>
    var acceptedOf: map<JsString, nat>
    ghost var start: nat
    ghost var base: Contacts<C>
    ghost var history: seq<Past<C>>

    constructor (ghost edits: nat, ghost shown: Contacts<C>)
      ensures editsOut == [] && acceptedOf == map[] && start == edits && base == shown && history == []
    {
      editsOut, acceptedOf, start, base, history := [], map[], edits, shown, [];
    }
  }

  function AcceptedGeneration(acceptedOf: map<JsString, nat>, h: JsString): nat {
    if h in acceptedOf then acceptedOf[h] else 0
  }

  ghost function IndexOf<C>(start: nat, e: Edit<C>): int { e.generation - start - 1 }

  /** editsOut lists, in order of issue, exactly the edits of the history that are out. */
  ghost predicate OutListed<C>(start: nat, history: seq<Past<C>>, out: seq<Edit<C>>) {
    && (forall i :: 0 <= i < |out| ==> var k := IndexOf(start, out[i]);
          0 <= k < |history| && history[k].status == Out && out[i].before.Keys == history[k].values.Keys)
    && (forall i, j :: 0 <= i < j < |out| ==> out[i].generation < out[j].generation)
    && (forall k :: 0 <= k < |history| && history[k].status == Out ==> exists i :: 0 <= i < |out| && IndexOf(start, out[i]) == k)
  }

  ghost predicate AcceptedNewer<C>(history: seq<Past<C>>, k: int, h: JsString) {
    exists j :: k < j < |history| && 0 <= j && Touches(history[j], h) && history[j].status == Accepted
  }

  /** acceptedOf remembers, per contact, the newest accepted edit. */
  ghost predicate AcceptedListed<C>(start: nat, history: seq<Past<C>>, acceptedOf: map<JsString, nat>) {
    && (forall k, h :: 0 <= k < |history| && Touches(history[k], h) && history[k].status == Accepted ==>
          AcceptedGeneration(acceptedOf, h) >= start + k + 1)
    && (forall h :: AcceptedGeneration(acceptedOf, h) > start ==>
          var k := AcceptedGeneration(acceptedOf, h) - start - 1;
          k < |history| && Touches(history[k], h) && history[k].status == Accepted)
  }

  /** The chain over the outstanding edits: each goes back to what the edits before it want,
      unless the server has taken a newer edit of that contact. */
  ghost predicate Chained<C>(start: nat, base: Contacts<C>, history: seq<Past<C>>, out: seq<Edit<C>>) {
    forall i, h :: 0 <= i < |out| && h in out[i].before ==>
      var k := IndexOf(start, out[i]);
      0 <= k < |history| && (AcceptedNewer(history, k, h) || out[i].before[h] == Wanted(base, history, k, h))
  }

  ghost predicate Shows<C>(base: Contacts<C>, history: seq<Past<C>>, shown: Contacts<C>) {
    forall h :: Lookup(shown, h) == Wanted(base, history, |history|, h)
  }

  ghost predicate Inv<C(!new)>(start: nat, base: Contacts<C>, history: seq<Past<C>>, out: seq<Edit<C>>, acceptedOf: map<JsString, nat>, shown: Contacts<C>) {
    OutListed(start, history, out) && AcceptedListed(start, history, acceptedOf) && Chained(start, base, history, out) && Shows(base, history, shown)
  }

  lemma {:induction false} AcceptedNewerIff<C>(start: nat, history: seq<Past<C>>, acceptedOf: map<JsString, nat>, k: nat, h: JsString)
    requires AcceptedListed(start, history, acceptedOf) && k < |history|
    ensures AcceptedNewer(history, k, h) <==> AcceptedGeneration(acceptedOf, h) > start + k + 1
  {
    if AcceptedGeneration(acceptedOf, h) > start + k + 1 {
      var j := AcceptedGeneration(acceptedOf, h) - start - 1;
      assert Touches(history[j], h) && history[j].status == Accepted;
    }
  }

  // ---------- takeBack ----------

  /** editsOut.find: the place of the first edit newer than a generation that touches h, or the length. */
  function FirstNewer<C>(out: seq<Edit<C>>, generation: nat, h: JsString): (i: nat)
    ensures i <= |out|
    ensures i < |out| ==> out[i].generation > generation && h in out[i].before
    ensures forall j :: 0 <= j < i ==> !(out[j].generation > generation && h in out[j].before)
  {
    if out == [] then 0
    else if out[0].generation > generation && h in out[0].before then 0
    else
      assert forall j :: 0 < j < |out| ==> out[j] == out[1..][j - 1];
      1 + FirstNewer(out[1..], generation, h)
  }

  predicate GoesBack<C>(failed: Edit<C>, acceptedOf: map<JsString, nat>, h: JsString) {
    h in failed.before && AcceptedGeneration(acceptedOf, h) <= failed.generation
  }

  ghost predicate SameOutline<C>(out: seq<Edit<C>>, out': seq<Edit<C>>) {
    |out'| == |out| && forall i :: 0 <= i < |out| ==> out'[i].generation == out[i].generation && out'[i].before.Keys == out[i].before.Keys
  }

  /** What handing back the contacts in done does to the screen. */
  ghost predicate ScreenBack<C(!new)>(failed: Edit<C>, acceptedOf: map<JsString, nat>, done: set<JsString>,
                                      out: seq<Edit<C>>, shown: Contacts<C>, shown': Contacts<C>) {
    forall h :: Lookup(shown', h) ==
      if h in done && GoesBack(failed, acceptedOf, h) && FirstNewer(out, failed.generation, h) == |out|
      then failed.before[h] else Lookup(shown, h)
  }

  /** What it does to the edits still out. */
  ghost predicate EditsBack<C(!new)>(failed: Edit<C>, acceptedOf: map<JsString, nat>, done: set<JsString>,
                                     out: seq<Edit<C>>, out': seq<Edit<C>>) {
    && SameOutline(out, out')
    && (forall i, h :: 0 <= i < |out| && h in out[i].before ==>
          out'[i].before[h] == HandedBack(failed, acceptedOf, done, out, i, h))
  }

  function HandedBack<C>(failed: Edit<C>, acceptedOf: map<JsString, nat>, done: set<JsString>, out: seq<Edit<C>>, i: nat, h: JsString): Option<C>
    requires i < |out| && h in out[i].before
  {
    if h in done && GoesBack(failed, acceptedOf, h) && FirstNewer(out, failed.generation, h) == i
    then failed.before[h] else out[i].before[h]
  }

  /** The search sees only generations and keys, which handing back leaves alone. */
  lemma {:induction false} FirstNewerStays<C>(out: seq<Edit<C>>, out': seq<Edit<C>>, generation: nat, h: JsString)
    requires SameOutline(out, out')
    ensures FirstNewer(out', generation, h) == FirstNewer(out, generation, h)
  {
    assert forall i :: 0 <= i < |out| ==> (h in out[i].before.Keys <==> h in out'[i].before.Keys);
  }

  lemma {:induction false} HandedBackMore<C>(failed: Edit<C>, acceptedOf: map<JsString, nat>, h: JsString, done: set<JsString>, out: seq<Edit<C>>, i: nat, g: JsString)
    requires i < |out| && g in out[i].before && h !in done
    ensures HandedBack(failed, acceptedOf, done + {h}, out, i, g) ==
              if g == h && GoesBack(failed, acceptedOf, h) && FirstNewer(out, failed.generation, h) == i then failed.before[h]
              else HandedBack(failed, acceptedOf, done, out, i, g)
  {
  }

  lemma {:induction false} EditsBackMore<C(!new)>(failed: Edit<C>, acceptedOf: map<JsString, nat>, h: JsString, done: set<JsString>,
                                                  out: seq<Edit<C>>, out': seq<Edit<C>>, n: nat)
    requires h in failed.before && h !in done && EditsBack(failed, acceptedOf, done, out, out')
    requires GoesBack(failed, acceptedOf, h) && n == FirstNewer(out, failed.generation, h) < |out|
    ensures EditsBack(failed, acceptedOf, done + {h}, out, out'[n := out'[n].(before := out'[n].before[h := failed.before[h]])])
  {
    var changed := out'[n].before[h := failed.before[h]];
    var out'' := out'[n := out'[n].(before := changed)];
    assert h in out[n].before.Keys && h in out'[n].before.Keys;
    assert changed.Keys == out'[n].before.Keys;
    forall i, g | 0 <= i < |out| && g in out[i].before
      ensures g in out''[i].before && out''[i].before[g] == HandedBack(failed, acceptedOf, done + {h}, out, i, g)
    {
      assert g in out[i].before.Keys && g in out'[i].before.Keys;
      HandedBackMore(failed, acceptedOf, h, done, out, i, g);
    }
  }

  lemma {:induction false} EditsBackIdle<C(!new)>(failed: Edit<C>, acceptedOf: map<JsString, nat>, h: JsString, done: set<JsString>,
                                                  out: seq<Edit<C>>, out': seq<Edit<C>>)
    requires h in failed.before && h !in done && EditsBack(failed, acceptedOf, done, out, out')
    requires !GoesBack(failed, acceptedOf, h) || FirstNewer(out, failed.generation, h) == |out|
    ensures EditsBack(failed, acceptedOf, done + {h}, out, out')
  {
    forall i, g | 0 <= i < |out| && g in out[i].before
      ensures out'[i].before[g] == HandedBack(failed, acceptedOf, done + {h}, out, i, g)
    {
      HandedBackMore(failed, acceptedOf, h, done, out, i, g);
    }
  }

  method TakeBackOne<C(!new)>(failed: Edit<C>, acceptedOf: map<JsString, nat>, h: JsString, ghost done: set<JsString>,
                              ghost out: seq<Edit<C>>, ghost shown: Contacts<C>, out': seq<Edit<C>>, shown': Contacts<C>)
    returns (out'': seq<Edit<C>>, shown'': Contacts<C>)
    requires h in failed.before && h !in done
    requires EditsBack(failed, acceptedOf, done, out, out') && ScreenBack(failed, acceptedOf, done, out, shown, shown')
    ensures EditsBack(failed, acceptedOf, done + {h}, out, out'') && ScreenBack(failed, acceptedOf, done + {h}, out, shown, shown'')
  {
    out'', shown'' := out', shown';
    FirstNewerStays(out, out', failed.generation, h);
    var newer := FirstNewer(out', failed.generation, h);
    if AcceptedGeneration(acceptedOf, h) > failed.generation {
      EditsBackIdle(failed, acceptedOf, h, done, out, out');
    } else {
      if newer < |out'| {
        EditsBackMore(failed, acceptedOf, h, done, out, out', newer);
        out'' := out'[newer := out'[newer].(before := out'[newer].before[h := failed.before[h]])];
      } else {
        EditsBackIdle(failed, acceptedOf, h, done, out, out');
        shown'' := Put(shown', h, failed.before[h]);
      }
    }
  }

  method TakeBack<C(!new)>(failed: Edit<C>, acceptedOf: map<JsString, nat>, out: seq<Edit<C>>, shown: Contacts<C>)
    returns (out': seq<Edit<C>>, shown': Contacts<C>)
    ensures EditsBack(failed, acceptedOf, failed.before.Keys, out, out')
    ensures ScreenBack(failed, acceptedOf, failed.before.Keys, out, shown, shown')
  {
    out', shown' := out, shown;
    var done: set<JsString> := {};
    while done != failed.before.Keys
      invariant done <= failed.before.Keys
      invariant EditsBack(failed, acceptedOf, done, out, out') && ScreenBack(failed, acceptedOf, done, out, shown, shown')
      decreases failed.before.Keys - done
    {
      var h :| h in failed.before.Keys && h !in done;
      out', shown' := TakeBackOne(failed, acceptedOf, h, done, out, shown, out', shown');
      done := done + {h};
    }
  }

  // ---------- a failure keeps the invariant ----------

  /** Among later edits of h, with none accepted after k, a live one is one still out. */
  lemma {:induction false} LiveIsOut<C>(start: nat, history: seq<Past<C>>, out: seq<Edit<C>>, k: nat, n: nat, h: JsString)
    requires OutListed(start, history, out) && k < |history| && n <= |history| && !AcceptedNewer(history, k, h)
    ensures LiveAfter(history, k, n, h) <==>
              exists i :: 0 <= i < |out| && start + k + 1 < out[i].generation <= start + n && h in out[i].before
  {
    if LiveAfter(history, k, n, h) {
      var j :| k < j < n && Touches(history[j], h) && history[j].status != Failed;
      assert history[j].status == Out;
      var i :| 0 <= i < |out| && IndexOf(start, out[i]) == j;
      assert h in out[i].before.Keys;
    }
    if i :| 0 <= i < |out| && start + k + 1 < out[i].generation <= start + n && h in out[i].before {
      var j := IndexOf(start, out[i]);
      assert h in history[j].values.Keys && Touches(history[j], h) && history[j].status == Out;
    }
  }

  function Without<C>(out: seq<Edit<C>>, p: nat): seq<Edit<C>>
    requires p < |out|
  {
    out[..p] + out[p + 1..]
  }

  function Settle<C>(history: seq<Past<C>>, k: nat, status: Status): seq<Past<C>>
    requires k < |history|
  {
    history[k := history[k].(status := status)]
  }

  /** Where edit i of the list without p sits in the list with it. */
  function Place(p: nat, i: nat): nat { if i < p then i else i + 1 }

  lemma {:induction false} PlaceIn<C>(start: nat, history: seq<Past<C>>, out: seq<Edit<C>>, p: nat, i: nat)
    requires OutListed(start, history, out) && p < |out| && i < |Without(out, p)|
    ensures Without(out, p)[i] == out[Place(p, i)] && Place(p, i) < |out|
    ensures 0 <= IndexOf(start, out[p]) < |history| && 0 <= IndexOf(start, out[Place(p, i)]) < |history|
    ensures history[IndexOf(start, out[Place(p, i)])].status == Out
    ensures i < p <==> IndexOf(start, out[Place(p, i)]) < IndexOf(start, out[p])
    ensures IndexOf(start, out[Place(p, i)]) != IndexOf(start, out[p])
    ensures forall h :: Touches(history[IndexOf(start, out[p])], h) <==> h in out[p].before
  {
    assert out[p].before.Keys == history[IndexOf(start, out[p])].values.Keys;
  }

  lemma {:induction false} RestAscends<C>(out: seq<Edit<C>>, p: nat)
    requires p < |out| && forall i, j :: 0 <= i < j < |out| ==> out[i].generation < out[j].generation
    ensures forall i, j :: 0 <= i < j < |Without(out, p)| ==> Without(out, p)[i].generation < Without(out, p)[j].generation
    ensures forall i :: p <= i < |Without(out, p)| ==> Without(out, p)[i].generation > out[p].generation
    ensures forall i :: 0 <= i < |Without(out, p)| ==> Without(out, p)[i] == out[Place(p, i)]
  {
  }

  /** Splicing a settled edit out of editsOut. */
  lemma {:induction false} SpliceListed<C>(start: nat, history: seq<Past<C>>, out: seq<Edit<C>>, p: nat, status: Status)
    requires OutListed(start, history, out) && p < |out| && status != Out
    ensures 0 <= IndexOf(start, out[p]) < |history|
    ensures OutListed(start, Settle(history, IndexOf(start, out[p]), status), Without(out, p))
  {
    var k := IndexOf(start, out[p]);
    var rest, settled := Without(out, p), Settle(history, k, status);
    RestAscends(out, p);
    forall i | 0 <= i < |rest|
      ensures 0 <= IndexOf(start, rest[i]) < |settled| && settled[IndexOf(start, rest[i])].status == Out
      ensures rest[i].before.Keys == settled[IndexOf(start, rest[i])].values.Keys
    {
      PlaceIn(start, history, out, p, i);
    }
    forall j | 0 <= j < |settled| && settled[j].status == Out
      ensures exists i :: 0 <= i < |rest| && IndexOf(start, rest[i]) == j
    {
      OutStays(start, history, out, p, j);
    }
  }

  lemma {:induction false} OutStays<C>(start: nat, history: seq<Past<C>>, out: seq<Edit<C>>, p: nat, j: nat)
    requires OutListed(start, history, out) && p < |out| && j < |history| && history[j].status == Out && j != IndexOf(start, out[p])
    ensures exists i :: 0 <= i < |Without(out, p)| && IndexOf(start, Without(out, p)[i]) == j
  {
    var i :| 0 <= i < |out| && IndexOf(start, out[i]) == j;
    assert Without(out, p)[if i < p then i else i - 1] == out[i];
  }

  lemma {:induction false} OutlineListed<C>(start: nat, history: seq<Past<C>>, out: seq<Edit<C>>, out': seq<Edit<C>>)
    requires OutListed(start, history, out) && SameOutline(out, out')
    ensures OutListed(start, history, out')
  {
    forall j | 0 <= j < |history| && history[j].status == Out
      ensures exists i :: 0 <= i < |out'| && IndexOf(start, out'[i]) == j
    {
      var i :| 0 <= i < |out| && IndexOf(start, out[i]) == j;
      assert IndexOf(start, out'[i]) == j;
    }
  }

  lemma {:induction false} FailureKeepsAccepted<C>(start: nat, history: seq<Past<C>>, acceptedOf: map<JsString, nat>, k: nat)
    requires AcceptedListed(start, history, acceptedOf) && k < |history| && history[k].status == Out
    ensures AcceptedListed(start, Settle(history, k, Failed), acceptedOf)
    ensures forall n: nat, h :: AcceptedNewer(Settle(history, k, Failed), n, h) <==> AcceptedNewer(history, n, h)
  {
    var failed := Settle(history, k, Failed);
    forall n: nat, h
      ensures AcceptedNewer(failed, n, h) <==> AcceptedNewer(history, n, h)
    {
      if AcceptedNewer(history, n, h) {
        var j :| n < j < |history| && 0 <= j && Touches(history[j], h) && history[j].status == Accepted;
        assert failed[j] == history[j];
      }
      if AcceptedNewer(failed, n, h) {
        var j :| n < j < |failed| && 0 <= j && Touches(failed[j], h) && failed[j].status == Accepted;
        assert failed[j] == history[j];
      }
    }
  }

  /** Whether a live edit of h lies between a failed one and the n-th, read off acceptedOf and editsOut. */
  lemma {:induction false} LiveBetween<C>(start: nat, history: seq<Past<C>>, out: seq<Edit<C>>, p: nat, acceptedOf: map<JsString, nat>, n: nat, h: JsString)
    requires OutListed(start, history, out) && p < |out| && AcceptedListed(start, history, acceptedOf)
    requires n <= |history| && GoesBack(out[p], acceptedOf, h)
    ensures var k := IndexOf(start, out[p]); var i := FirstNewer(Without(out, p), out[p].generation, h);
            0 <= k < |history| &&
            (LiveAfter(history, k, n, h) <==> i < |Without(out, p)| && Without(out, p)[i].generation <= start + n)
  {
    var k := IndexOf(start, out[p]);
    AcceptedNewerIff(start, history, acceptedOf, k, h);
    LiveIsOut(start, history, out, k, n, h);
    FirstNewerWithin(out, p, start + n, h);
  }

  /** Some later edit of h up to a bound is in the list exactly when the first later one is. */
  lemma {:induction false} FirstNewerWithin<C>(out: seq<Edit<C>>, p: nat, bound: nat, h: JsString)
    requires p < |out| && forall i, j :: 0 <= i < j < |out| ==> out[i].generation < out[j].generation
    ensures var rest := Without(out, p); var i := FirstNewer(rest, out[p].generation, h);
            (exists j :: 0 <= j < |out| && out[p].generation < out[j].generation <= bound && h in out[j].before)
            <==> i < |rest| && rest[i].generation <= bound
  {
    var rest := Without(out, p);
    RestAscends(out, p);
    if j :| 0 <= j < |out| && out[p].generation < out[j].generation <= bound && h in out[j].before {
      LaterIsFound(out, p, j, bound, h);
    }
    var i := FirstNewer(rest, out[p].generation, h);
    assert i < |rest| ==> rest[i] == out[Place(p, i)];
  }

  lemma {:induction false} LaterIsFound<C>(out: seq<Edit<C>>, p: nat, j: nat, bound: nat, h: JsString)
    requires p < |out| && j < |out| && out[p].generation < out[j].generation <= bound && h in out[j].before
    requires var rest := Without(out, p); forall i, k :: 0 <= i < k < |rest| ==> rest[i].generation < rest[k].generation
    ensures var rest := Without(out, p); var i := FirstNewer(rest, out[p].generation, h);
            i < |rest| && rest[i].generation <= bound
  {
    var rest := Without(out, p);
    var j' := if j < p then j else j - 1;
    assert rest[j'] == out[j];
    FirstNewerPlace(rest, out[p].generation, h, j');
  }

  /** What the screen shows for a contact the failed edit hands back. */
  lemma {:induction false} ScreenHanded<C(!new)>(start: nat, history: seq<Past<C>>, out: seq<Edit<C>>, p: nat, acceptedOf: map<JsString, nat>, h: JsString)
    requires OutListed(start, history, out) && AcceptedListed(start, history, acceptedOf) && p < |out|
    requires GoesBack(out[p], acceptedOf, h)
    ensures 0 <= IndexOf(start, out[p]) < |history|
    ensures FirstNewer(Without(out, p), out[p].generation, h) == |Without(out, p)|
            <==> !LiveAfter(history, IndexOf(start, out[p]), |history|, h)
  {
    LiveBetween(start, history, out, p, acceptedOf, |history|, h);
    var f := FirstNewer(Without(out, p), out[p].generation, h);
    if f < |Without(out, p)| {
      PlaceIn(start, history, out, p, f);
    }
  }

  lemma {:induction false} FailedScreen<C(!new)>(start: nat, base: Contacts<C>, history: seq<Past<C>>, out: seq<Edit<C>>, p: nat,
                                                 acceptedOf: map<JsString, nat>, was: Option<C>, now: Option<C>, h: JsString)
    requires OutListed(start, history, out) && AcceptedListed(start, history, acceptedOf) && Chained(start, base, history, out)
    requires p < |out| && was == Wanted(base, history, |history|, h)
    requires now == if h in out[p].before.Keys && GoesBack(out[p], acceptedOf, h) && FirstNewer(Without(out, p), out[p].generation, h) == |Without(out, p)|
                    then out[p].before[h] else was
    ensures 0 <= IndexOf(start, out[p]) < |history|
    ensures now == Wanted(base, Settle(history, IndexOf(start, out[p]), Failed), |history|, h)
  {
    var k := IndexOf(start, out[p]);
    assert h in out[p].before.Keys <==> Touches(history[k], h);
    WantedAfterFailure(base, history, k, |history|, h);
    AcceptedNewerIff(start, history, acceptedOf, k, h);
    if GoesBack(out[p], acceptedOf, h) {
      ScreenHanded(start, history, out, p, acceptedOf, h);
    } else if Touches(history[k], h) {
      AcceptedIsLive(history, k, h);
    }
  }

  lemma {:induction false} FailureShows<C(!new)>(start: nat, base: Contacts<C>, history: seq<Past<C>>, out: seq<Edit<C>>, p: nat,
                                                 acceptedOf: map<JsString, nat>, shown: Contacts<C>, shown': Contacts<C>)
    requires Inv(start, base, history, out, acceptedOf, shown) && p < |out|
    requires ScreenBack(out[p], acceptedOf, out[p].before.Keys, Without(out, p), shown, shown')
    ensures 0 <= IndexOf(start, out[p]) < |history|
    ensures Shows(base, Settle(history, IndexOf(start, out[p]), Failed), shown')
  {
    var k := IndexOf(start, out[p]);
    forall h
      ensures Lookup(shown', h) == Wanted(base, Settle(history, k, Failed), |history|, h)
    {
      FailedScreen(start, base, history, out, p, acceptedOf, Lookup(shown, h), Lookup(shown', h), h);
    }
  }

  lemma {:induction false} AcceptedIsLive<C>(history: seq<Past<C>>, k: nat, h: JsString)
    requires AcceptedNewer(history, k, h)
    ensures LiveAfter(history, k, |history|, h)
  {
    var j :| k < j < |history| && 0 <= j && Touches(history[j], h) && history[j].status == Accepted;
    assert history[j].status != Failed;
  }

  /** An edit that goes back and has a later one out: the first later one is handed what it goes back to. */
  lemma {:induction false} ChainHanded<C(!new)>(start: nat, base: Contacts<C>, history: seq<Past<C>>, out: seq<Edit<C>>, p: nat,
                                                acceptedOf: map<JsString, nat>, i: nat, h: JsString)
    requires OutListed(start, history, out) && AcceptedListed(start, history, acceptedOf) && p < |out|
    requires i < |Without(out, p)| && h in Without(out, p)[i].before && i >= p && GoesBack(out[p], acceptedOf, h)
    requires 0 <= IndexOf(start, out[p]) < |history| && 0 <= IndexOf(start, Without(out, p)[i]) < |history|
    requires out[p].before[h] == Wanted(base, history, IndexOf(start, out[p]), h)
    requires Without(out, p)[i].before[h] == Wanted(base, history, IndexOf(start, Without(out, p)[i]), h)
    ensures HandedBack(out[p], acceptedOf, out[p].before.Keys, Without(out, p), i, h)
            == Wanted(base, Settle(history, IndexOf(start, out[p]), Failed), IndexOf(start, Without(out, p)[i]), h)
  {
    var rest := Without(out, p);
    PlaceIn(start, history, out, p, i);
    var k, m := IndexOf(start, out[p]), IndexOf(start, rest[i]);
    WantedAfterFailure(base, history, k, m, h);
    LiveBetween(start, history, out, p, acceptedOf, m, h);
    RestAscends(out, p);
    FirstNewerPlace(rest, out[p].generation, h, i);
  }

  /** An edit that does not go back because a newer one was accepted, or that comes after this one, changes nothing here. */
  lemma {:induction false} ChainKept<C(!new)>(start: nat, base: Contacts<C>, history: seq<Past<C>>, out: seq<Edit<C>>, p: nat,
                                              acceptedOf: map<JsString, nat>, i: nat, h: JsString)
    requires OutListed(start, history, out) && AcceptedListed(start, history, acceptedOf) && p < |out|
    requires i < |Without(out, p)| && h in Without(out, p)[i].before && (i < p || !GoesBack(out[p], acceptedOf, h))
    requires 0 <= IndexOf(start, out[p]) < |history| && 0 <= IndexOf(start, Without(out, p)[i]) < |history|
    requires !AcceptedNewer(history, IndexOf(start, Without(out, p)[i]), h)
    ensures HandedBack(out[p], acceptedOf, out[p].before.Keys, Without(out, p), i, h) == Without(out, p)[i].before[h]
    ensures Wanted(base, Settle(history, IndexOf(start, out[p]), Failed), IndexOf(start, Without(out, p)[i]), h)
            == Wanted(base, history, IndexOf(start, Without(out, p)[i]), h)
  {
    var rest := Without(out, p);
    PlaceIn(start, history, out, p, i);
    var k, m := IndexOf(start, out[p]), IndexOf(start, rest[i]);
    WantedAfterFailure(base, history, k, m, h);
    AcceptedNewerIff(start, history, acceptedOf, k, h);
    if m > k && Touches(history[k], h) {
      AcceptedBetween(start, history, acceptedOf, k, m, h);
    }
  }

  lemma {:induction false} FailureChain<C(!new)>(start: nat, base: Contacts<C>, history: seq<Past<C>>, out: seq<Edit<C>>, p: nat,
                                                 acceptedOf: map<JsString, nat>, i: nat, h: JsString)
    requires OutListed(start, history, out) && AcceptedListed(start, history, acceptedOf) && Chained(start, base, history, out)
    requires p < |out| && i < |Without(out, p)| && h in Without(out, p)[i].before
    ensures 0 <= IndexOf(start, out[p]) < |history| && 0 <= IndexOf(start, Without(out, p)[i]) < |history|
    ensures AcceptedNewer(history, IndexOf(start, Without(out, p)[i]), h)
            || HandedBack(out[p], acceptedOf, out[p].before.Keys, Without(out, p), i, h)
               == Wanted(base, Settle(history, IndexOf(start, out[p]), Failed), IndexOf(start, Without(out, p)[i]), h)
  {
    PlaceIn(start, history, out, p, i);
    var q := Place(p, i);
    assert h in out[q].before;
    AcceptedNewerIff(start, history, acceptedOf, IndexOf(start, out[p]), h);
    if !AcceptedNewer(history, IndexOf(start, out[q]), h) {
      if i >= p && GoesBack(out[p], acceptedOf, h) {
        ChainHanded(start, base, history, out, p, acceptedOf, i, h);
      } else {
        ChainKept(start, base, history, out, p, acceptedOf, i, h);
      }
    }
  }

  /** An edit newer than a generation that touches h is the first one, or comes after it. */
  lemma {:induction false} FirstNewerPlace<C>(out: seq<Edit<C>>, generation: nat, h: JsString, i: nat)
    requires i < |out| && out[i].generation > generation && h in out[i].before
    requires forall i, j :: 0 <= i < j < |out| ==> out[i].generation < out[j].generation
    ensures var f := FirstNewer(out, generation, h); f <= i && (f < i <==> out[f].generation < out[i].generation)
  {
  }

  lemma {:induction false} AcceptedBetween<C>(start: nat, history: seq<Past<C>>, acceptedOf: map<JsString, nat>, k: nat, m: nat, h: JsString)
    requires AcceptedListed(start, history, acceptedOf) && k < m < |history| && history[m].status == Out
    requires AcceptedNewer(history, k, h) && !AcceptedNewer(history, m, h)
    ensures LiveAfter(history, k, m, h)
  {
    var j :| k < j < |history| && 0 <= j && Touches(history[j], h) && history[j].status == Accepted;
    assert j < m;
  }

  /** A failed edit taken back leaves every contact showing what it should, and the other edits chained. */
  lemma {:induction false} FailureKeepsInv<C(!new)>(start: nat, base: Contacts<C>, history: seq<Past<C>>, out: seq<Edit<C>>, p: nat,
                                                    acceptedOf: map<JsString, nat>, shown: Contacts<C>, out': seq<Edit<C>>, shown': Contacts<C>)
    requires Inv(start, base, history, out, acceptedOf, shown) && p < |out|
    requires EditsBack(out[p], acceptedOf, out[p].before.Keys, Without(out, p), out')
    requires ScreenBack(out[p], acceptedOf, out[p].before.Keys, Without(out, p), shown, shown')
    ensures var k := IndexOf(start, out[p]); 0 <= k < |history| && Inv(start, base, Settle(history, k, Failed), out', acceptedOf, shown')
  {
    var k := IndexOf(start, out[p]);
    SpliceListed(start, history, out, p, Failed);
    OutlineListed(start, Settle(history, k, Failed), Without(out, p), out');
    FailureKeepsAccepted(start, history, acceptedOf, k);
    FailureShows(start, base, history, out, p, acceptedOf, shown, shown');
    var rest := Without(out, p);
    forall i, h | 0 <= i < |out'| && h in out'[i].before
      ensures 0 <= IndexOf(start, out'[i]) < |history|
      ensures AcceptedNewer(Settle(history, k, Failed), IndexOf(start, out'[i]), h)
              || out'[i].before[h] == Wanted(base, Settle(history, k, Failed), IndexOf(start, out'[i]), h)
    {
      assert h in out'[i].before.Keys && h in rest[i].before.Keys;
      FailureChain(start, base, history, out, p, acceptedOf, i, h);
    }
  }

  // ---------- an acceptance keeps the invariant ----------

  /** acceptedOf after the edits of keys at a generation are taken. */
  ghost predicate AcceptedSince(acceptedOf: map<JsString, nat>, keys: set<JsString>, generation: nat, acceptedOf': map<JsString, nat>) {
    forall h :: AcceptedGeneration(acceptedOf', h) ==
      if h in keys && generation > AcceptedGeneration(acceptedOf, h) then generation else AcceptedGeneration(acceptedOf, h)
  }

  method MarkAccepted(acceptedOf: map<JsString, nat>, keys: set<JsString>, generation: nat) returns (acceptedOf': map<JsString, nat>)
    ensures AcceptedSince(acceptedOf, keys, generation, acceptedOf')
  {
    acceptedOf' := acceptedOf;
    var done: set<JsString> := {};
    while done != keys
      invariant done <= keys && AcceptedSince(acceptedOf, done, generation, acceptedOf')
      decreases keys - done
    {
      var h :| h in keys && h !in done;
      var was := AcceptedGeneration(acceptedOf', h);
      acceptedOf' := acceptedOf'[h := if generation > was then generation else was];
      done := done + {h};
    }
  }

  lemma {:induction false} AcceptanceKeepsInv<C(!new)>(start: nat, base: Contacts<C>, history: seq<Past<C>>, out: seq<Edit<C>>, p: nat,
                                                       acceptedOf: map<JsString, nat>, shown: Contacts<C>, acceptedOf': map<JsString, nat>)
    requires Inv(start, base, history, out, acceptedOf, shown) && p < |out|
    requires AcceptedSince(acceptedOf, out[p].before.Keys, out[p].generation, acceptedOf')
    ensures 0 <= IndexOf(start, out[p]) < |history|
    ensures Inv(start, base, Settle(history, IndexOf(start, out[p]), Accepted), Without(out, p), acceptedOf', shown)
  {
    var k := IndexOf(start, out[p]);
    var taken := Settle(history, k, Accepted);
    SpliceListed(start, history, out, p, Accepted);
    AcceptanceListed(start, history, out, p, acceptedOf, acceptedOf');
    forall h
      ensures Lookup(shown, h) == Wanted(base, taken, |history|, h)
    {
      WantedAfterAcceptance(base, history, k, |history|, h);
    }
    var rest := Without(out, p);
    forall i, h | 0 <= i < |rest| && h in rest[i].before
      ensures 0 <= IndexOf(start, rest[i]) < |history|
      ensures AcceptedNewer(taken, IndexOf(start, rest[i]), h) || rest[i].before[h] == Wanted(base, taken, IndexOf(start, rest[i]), h)
    {
      AcceptedChain(start, base, history, out, p, i, h);
    }
  }

  lemma {:induction false} AcceptedChain<C(!new)>(start: nat, base: Contacts<C>, history: seq<Past<C>>, out: seq<Edit<C>>, p: nat, i: nat, h: JsString)
    requires OutListed(start, history, out) && Chained(start, base, history, out) && p < |out|
    requires i < |Without(out, p)| && h in Without(out, p)[i].before
    ensures 0 <= IndexOf(start, out[p]) < |history| && 0 <= IndexOf(start, Without(out, p)[i]) < |history|
    ensures var taken := Settle(history, IndexOf(start, out[p]), Accepted);
            AcceptedNewer(taken, IndexOf(start, Without(out, p)[i]), h)
            || Without(out, p)[i].before[h] == Wanted(base, taken, IndexOf(start, Without(out, p)[i]), h)
  {
    PlaceIn(start, history, out, p, i);
    var q := Place(p, i);
    var k, m := IndexOf(start, out[p]), IndexOf(start, out[q]);
    WantedAfterAcceptance(base, history, k, m, h);
    if AcceptedNewer(history, m, h) {
      var j :| m < j < |history| && 0 <= j && Touches(history[j], h) && history[j].status == Accepted;
      assert Touches(Settle(history, k, Accepted)[j], h);
    } else {
      assert h in out[q].before;
    }
  }

  lemma {:induction false} AcceptanceListed<C>(start: nat, history: seq<Past<C>>, out: seq<Edit<C>>, p: nat, acceptedOf: map<JsString, nat>, acceptedOf': map<JsString, nat>)
    requires OutListed(start, history, out) && AcceptedListed(start, history, acceptedOf) && p < |out|
    requires AcceptedSince(acceptedOf, out[p].before.Keys, out[p].generation, acceptedOf')
    ensures 0 <= IndexOf(start, out[p]) < |history|
    ensures AcceptedListed(start, Settle(history, IndexOf(start, out[p]), Accepted), acceptedOf')
  {
    var k := IndexOf(start, out[p]);
    var taken := Settle(history, k, Accepted);
    assert out[p].before.Keys == history[k].values.Keys;
    forall j, h | 0 <= j < |taken| && Touches(taken[j], h) && taken[j].status == Accepted
      ensures AcceptedGeneration(acceptedOf', h) >= start + j + 1
    {
      assert j != k ==> Touches(history[j], h) && history[j].status == Accepted;
    }
    forall h | AcceptedGeneration(acceptedOf', h) > start
      ensures var j := AcceptedGeneration(acceptedOf', h) - start - 1;
              j < |taken| && Touches(taken[j], h) && taken[j].status == Accepted
    {
      var j := AcceptedGeneration(acceptedOf', h) - start - 1;
      assert j == k || AcceptedGeneration(acceptedOf, h) == AcceptedGeneration(acceptedOf', h);
    }
  }

  // ---------- an edit made ----------

  lemma {:induction false} EditKeepsInv<C(!new)>(start: nat, base: Contacts<C>, history: seq<Past<C>>, out: seq<Edit<C>>, acceptedOf: map<JsString, nat>,
                                                 shown: Contacts<C>, edit: Edit<C>, values: map<JsString, Option<C>>, shown': Contacts<C>)
    requires Inv(start, base, history, out, acceptedOf, shown)
    requires edit.generation == start + |history| + 1 && edit.before.Keys == values.Keys
    requires forall h :: h in values ==> edit.before[h] == Lookup(shown, h)
    requires forall h :: Lookup(shown', h) == if h in values then values[h] else Lookup(shown, h)
    ensures Inv(start, base, history + [Past(values, Out)], out + [edit], acceptedOf, shown')
  {
    var longer := history + [Past(values, Out)];
    EditListed(start, history, out, edit, values);
    forall h
      ensures Lookup(shown', h) == Wanted(base, longer, |longer|, h)
    {
      WantedIgnoresLater(base, history, longer, |history|, h);
    }
    EditChained(start, base, history, out, acceptedOf, shown, edit, values);
    assert AcceptedListed(start, longer, acceptedOf);
  }

  lemma {:induction false} EditListed<C>(start: nat, history: seq<Past<C>>, out: seq<Edit<C>>, edit: Edit<C>, values: map<JsString, Option<C>>)
    requires OutListed(start, history, out) && edit.generation == start + |history| + 1 && edit.before.Keys == values.Keys
    ensures OutListed(start, history + [Past(values, Out)], out + [edit])
  {
    var longer, more := history + [Past(values, Out)], out + [edit];
    forall k | 0 <= k < |longer| && longer[k].status == Out
      ensures exists i :: 0 <= i < |more| && IndexOf(start, more[i]) == k
    {
      if k < |history| {
        assert history[k].status == Out;
        var i :| 0 <= i < |out| && IndexOf(start, out[i]) == k;
        assert more[i] == out[i];
      } else {
        assert IndexOf(start, more[|out|]) == k;
      }
    }
  }

  lemma {:induction false} EditChained<C(!new)>(start: nat, base: Contacts<C>, history: seq<Past<C>>, out: seq<Edit<C>>, acceptedOf: map<JsString, nat>,
                                                shown: Contacts<C>, edit: Edit<C>, values: map<JsString, Option<C>>)
    requires Inv(start, base, history, out, acceptedOf, shown)
    requires edit.generation == start + |history| + 1 && edit.before.Keys == values.Keys
    requires forall h :: h in values ==> edit.before[h] == Lookup(shown, h)
    ensures Chained(start, base, history + [Past(values, Out)], out + [edit])
  {
    var longer, more := history + [Past(values, Out)], out + [edit];
    forall i, h | 0 <= i < |more| && h in more[i].before
      ensures 0 <= IndexOf(start, more[i]) < |longer|
      ensures AcceptedNewer(longer, IndexOf(start, more[i]), h) || more[i].before[h] == Wanted(base, longer, IndexOf(start, more[i]), h)
    {
      if i < |out| {
        var k := IndexOf(start, out[i]);
        assert h in out[i].before;
        WantedIgnoresLater(base, history, longer, k, h);
        if AcceptedNewer(history, k, h) {
          var j :| k < j < |history| && 0 <= j && Touches(history[j], h) && history[j].status == Accepted;
          assert Touches(longer[j], h);
        }
      } else {
        WantedIgnoresLater(base, history, longer, |history|, h);
        assert h in edit.before.Keys;
      }
    }
  }

  // ---------- the store ----------

  /** An edit on its way to the server, with what it captured when it was made. */
  datatype Call<!C(!new)> = Call(session: Session<C>, generation: nat, account: JsString, keys: set<JsString>)

  /** The edits still out, as their generations and the contacts they touch; those of one generation left aside. */
  ghost function Others<C>(out: seq<Edit<C>>, generation: nat): set<(nat, set<JsString>)> {
    set e | e in out && e.generation != generation :: (e.generation, e.before.Keys)
  }

  ghost function Outline<C>(out: seq<Edit<C>>): set<(nat, set<JsString>)> {
    set e | e in out :: (e.generation, e.before.Keys)
  }

  lemma {:induction false} InOthers<C(!new)>(out: seq<Edit<C>>, settled: nat, generation: nat, keys: set<JsString>)
    requires generation != settled
    ensures (generation, keys) in Outline(out) <==> (generation, keys) in Others(out, settled)
  {
  }

  lemma {:induction false} OutlineGrows<C>(out: seq<Edit<C>>, edit: Edit<C>)
    ensures Outline(out + [edit]) == Outline(out) + {(edit.generation, edit.before.Keys)}
  {
    assert forall e :: e in out + [edit] <==> e in out || e == edit;
    assert edit in out + [edit];
  }

  ghost predicate Awaited<C(!new)>(call: Call<C>)
    reads call.session
  {
    (call.generation, call.keys) in Outline(call.session.editsOut)
  }

  lemma {:induction false} OneOfEachGeneration<C>(start: nat, history: seq<Past<C>>, out: seq<Edit<C>>, p: nat, keys: set<JsString>)
    requires OutListed(start, history, out) && p < |out|
    requires (out[p].generation, keys) in Outline(out)
    ensures out[p].before.Keys == keys
  {
  }

  lemma {:induction false} IndexWithin<C>(start: nat, history: seq<Past<C>>, out: seq<Edit<C>>, p: nat)
    requires OutListed(start, history, out) && p < |out|
    ensures 0 <= IndexOf(start, out[p]) < |history|
  {
  }

  lemma {:induction false} SpliceKeepsOthers<C(!new)>(out: seq<Edit<C>>, p: nat, out': seq<Edit<C>>)
    requires p < |out| && SameOutline(Without(out, p), out')
    ensures Others(out', out[p].generation) == Others(out, out[p].generation)
  {
    var rest := Without(out, p);
    forall e | e in out && e.generation != out[p].generation
      ensures (e.generation, e.before.Keys) in Others(out', out[p].generation)
    {
      var i :| 0 <= i < |out| && out[i] == e;
      var j := if i < p then i else i - 1;
      assert rest[j] == e && out'[j] in out';
    }
    forall e | e in out' && e.generation != out[p].generation
      ensures (e.generation, e.before.Keys) in Others(out, out[p].generation)
    {
      var j :| 0 <= j < |out'| && out'[j] == e;
      assert rest[j] == out[Place(p, j)] && out[Place(p, j)] in out;
    }
  }

  // ---------- the server's answer ----------

  /** What a contact is after the edits the server has taken, each leaving what it showed. */
  function Taken<C>(base: Contacts<C>, history: seq<Past<C>>, n: nat, h: JsString): Option<C>
    requires n <= |history|
  {
    if n == 0 then Lookup(base, h)
    else if h in history[n - 1].values && history[n - 1].status == Accepted then history[n - 1].values[h]
    else Taken(base, history, n - 1, h)
  }

  /** The answer is the server's list: the edits it has taken, and none still out. */
  ghost predicate ServerHolds<C(!new)>(base: Contacts<C>, history: seq<Past<C>>, answer: Contacts<C>) {
    forall h :: Lookup(answer, h) == Taken(base, history, |history|, h)
  }

  ghost predicate TakenAfter<C>(history: seq<Past<C>>, k: nat, n: nat, h: JsString)
    requires n <= |history|
  {
    exists j :: k < j < n && Touches(history[j], h) && history[j].status == Accepted
  }

  /** Every edit of h still out among the first n is older than one the server has taken. */
  ghost predicate Covered<C>(history: seq<Past<C>>, n: nat, h: JsString)
    requires n <= |history|
  {
    forall k :: 0 <= k < n && Touches(history[k], h) && history[k].status == Out ==> TakenAfter(history, k, n, h)
  }

  lemma {:induction false} CoveredBefore<C>(history: seq<Past<C>>, n: nat, h: JsString)
    requires n < |history| && !(Touches(history[n], h) && history[n].status != Failed)
    ensures Covered(history, n + 1, h) <==> Covered(history, n, h)
  {
    assert forall k :: 0 <= k < n ==> (TakenAfter(history, k, n + 1, h) <==> TakenAfter(history, k, n, h));
  }

  lemma {:induction false} CoveredIsTaken<C>(base: Contacts<C>, history: seq<Past<C>>, n: nat, h: JsString)
    requires n <= |history| && Covered(history, n, h)
    ensures Taken(base, history, n, h) == Wanted(base, history, n, h)
  {
    if n > 0 {
      if !Touches(history[n - 1], h) || history[n - 1].status == Failed {
        CoveredBefore(history, n - 1, h);
        CoveredIsTaken(base, history, n - 1, h);
      }
    }
  }

  /** Edit k is out, and the newest of h that has not failed. */
  ghost predicate OutShows<C>(history: seq<Past<C>>, k: nat, n: nat, h: JsString)
    requires n <= |history|
  {
    k < n && Touches(history[k], h) && history[k].status == Out && !LiveAfter(history, k, n, h)
  }

  lemma {:induction false} OutShowsWanted<C>(base: Contacts<C>, history: seq<Past<C>>, k: nat, n: nat, h: JsString)
    requires n <= |history| && OutShows(history, k, n, h)
    ensures Wanted(base, history, n, h) == history[k].values[h]
  {
    if k < n - 1 {
      assert !(Touches(history[n - 1], h) && history[n - 1].status != Failed);
      OutShowsWanted(base, history, k, n - 1, h);
    }
  }

  lemma {:induction false} UncoveredShows<C>(history: seq<Past<C>>, n: nat, h: JsString) returns (k: nat)
    requires n <= |history| && !Covered(history, n, h)
    ensures OutShows(history, k, n, h)
  {
    if Touches(history[n - 1], h) && history[n - 1].status != Failed {
      k := n - 1;
      var i :| 0 <= i < n && Touches(history[i], h) && history[i].status == Out && !TakenAfter(history, i, n, h);
    } else {
      CoveredBefore(history, n - 1, h);
      k := UncoveredShows(history, n - 1, h);
    }
  }

  /** Putting the server's list on the screen while edits are out leaves every contact right exactly when no edit still
      out is the newest of its contact with another value than the server's; so it does when each is older than one
      the server has taken. */
  lemma {:induction false} ReplacementIsRightIff<C(!new)>(base: Contacts<C>, history: seq<Past<C>>, answer: Contacts<C>)
    requires ServerHolds(base, history, answer)
    ensures Shows(base, history, answer) <==>
            forall k: nat, h :: OutShows(history, k, |history|, h) ==> history[k].values[h] == Taken(base, history, |history|, h)
    ensures (forall h :: Covered(history, |history|, h)) ==> Shows(base, history, answer)
  {
    var n := |history|;
    forall k: nat, h | OutShows(history, k, n, h)
      ensures Wanted(base, history, n, h) == history[k].values[h]
    {
      OutShowsWanted(base, history, k, n, h);
    }
    forall h
      ensures Covered(history, n, h) ==> Taken(base, history, n, h) == Wanted(base, history, n, h)
      ensures !Covered(history, n, h) ==> exists k: nat :: OutShows(history, k, n, h)
    {
      if Covered(history, n, h) {
        CoveredIsTaken(base, history, n, h);
      } else {
        var k := UncoveredShows(history, n, h);
      }
    }
  }

  /** Only one map shows what a history wants. */
  lemma {:induction false} ShownIsOne<C(!new)>(base: Contacts<C>, history: seq<Past<C>>, shown: Contacts<C>, shown': Contacts<C>)
    requires Shows(base, history, shown)
    ensures Shows(base, history, shown') <==> shown' == shown
  {
    if Shows(base, history, shown') {
      forall h
        ensures h in shown <==> h in shown'
        ensures h in shown ==> shown'[h] == shown[h]
      {
        assert Lookup(shown, h) == Lookup(shown', h);
      }
      assert shown.Keys == shown'.Keys;
    }
  }

  lemma {:induction false} InvShowsOne<C(!new)>(start: nat, base: Contacts<C>, history: seq<Past<C>>, out: seq<Edit<C>>,
                                               acceptedOf: map<JsString, nat>, shown: Contacts<C>, shown': Contacts<C>)
    requires Inv(start, base, history, out, acceptedOf, shown)
    ensures Inv(start, base, history, out, acceptedOf, shown') <==> shown' == shown
  {
    ShownIsOne(base, history, shown, shown');
  }

  class ContactsStore<C(!new), D> {
    var contactsMap: Contacts<C>
    var contactsEdits: nat
    var session: Session<C>
    var account: JsString
    const merge: (Option<C>, D) -> C

    constructor (merge: (Option<C>, D) -> C, account: JsString, loaded: Contacts<C>)
      ensures Valid() && fresh(session) && contactsMap == loaded && this.account == account
    {
      contactsMap, contactsEdits, this.account, this.merge := loaded, 0, account, merge;
      session := new Session<C>(0, loaded);
    }

    /** Every contact shows the value of its newest edit that has not failed, or what it showed before any,
        and the edits still out are chained. */
    ghost predicate Valid()
      reads this, session
    {
      && session.start + |session.history| == contactsEdits
      // as an equation, the invariant is carried by name rather than unfolded at every step
      && Inv(session.start, session.base, session.history, session.editsOut, session.acceptedOf, contactsMap) == true
    }

    /** What an edit makes a contact show: null deletes it, anything else is merged onto what is shown. */
    function Edited(change: Option<D>, was: Option<C>): Option<C> {
      match change case None => None case Some(d) => Some(merge(was, d))
    }

    ghost function ValuesOf(edits: map<JsString, Option<D>>, shown: Contacts<C>): map<JsString, Option<C>> {
      map h | h in edits :: Edited(edits[h], Lookup(shown, h))
    }

    method ShowEdits(edits: map<JsString, Option<D>>, was: Contacts<C>) returns (before: map<JsString, Option<C>>, shown: Contacts<C>)
      ensures before == map h | h in edits :: Lookup(was, h)
      ensures forall h :: Lookup(shown, h) == if h in edits then ValuesOf(edits, was)[h] else Lookup(was, h)
    {
      shown, before := was, map[];
      var done: set<JsString> := {};
      while done != edits.Keys
        invariant done <= edits.Keys && before == map h | h in done :: Lookup(was, h)
        invariant forall h :: Lookup(shown, h) == if h in done then ValuesOf(edits, was)[h] else Lookup(was, h)
        decreases edits.Keys - done
      {
        var h :| h in edits.Keys && h !in done;
        before := before[h := Lookup(shown, h)];
        shown := Put(shown, h, Edited(edits[h], Lookup(shown, h)));
        done := done + {h};
      }
    }

    /** writeContacts up to its await. */
    method Begin(edits: map<JsString, Option<D>>) returns (call: Call<C>)
      requires Valid()
      modifies this`contactsMap, this`contactsEdits, session
      ensures Valid() && session == old(session) && account == old(account)
      ensures contactsEdits == old(contactsEdits) + 1
      ensures call == Call(session, contactsEdits, account, edits.Keys) && Awaited(call)
      ensures session.start == old(session.start) && session.base == old(session.base)
      ensures session.history == old(session.history) + [Past(ValuesOf(edits, old(contactsMap)), Out)]
      ensures Outline(old(session.editsOut)) <= Outline(session.editsOut)
      // shown at once: null deletes, anything else is merged onto what was shown, and no other contact changes
      ensures forall h :: h in edits && edits[h].None? ==> h !in contactsMap
      ensures forall h :: h in edits && edits[h].Some? ==>
                h in contactsMap && contactsMap[h] == merge(old(Lookup(contactsMap, h)), edits[h].value)
      ensures forall h :: h !in edits ==> Lookup(contactsMap, h) == old(Lookup(contactsMap, h))
    {
      var before, shown := ShowEdits(edits, contactsMap);
      assert before.Keys == edits.Keys;
      Remember(Edit(contactsEdits + 1, before), shown, ValuesOf(edits, contactsMap));
      call := Call(session, contactsEdits, account, edits.Keys);
    }

    /** The edit joins those that are out, and what it shows is shown. */
    method Remember(edit: Edit<C>, shown: Contacts<C>, ghost values: map<JsString, Option<C>>)
      requires Valid() && edit.generation == contactsEdits + 1 && edit.before.Keys == values.Keys
      requires forall h :: h in values ==> edit.before[h] == Lookup(contactsMap, h)
      requires forall h :: Lookup(shown, h) == if h in values then values[h] else Lookup(contactsMap, h)
      modifies this`contactsMap, this`contactsEdits, session
      ensures Valid() && session == old(session) && contactsEdits == edit.generation && contactsMap == shown
      ensures session.start == old(session.start) && session.base == old(session.base)
      ensures session.history == old(session.history) + [Past(values, Out)]
      ensures Outline(session.editsOut) == Outline(old(session.editsOut)) + {(edit.generation, edit.before.Keys)}
    {
      EditKeepsInv(session.start, session.base, session.history, session.editsOut, session.acceptedOf, contactsMap, edit, values, shown);
      OutlineGrows(session.editsOut, edit);
      contactsEdits := edit.generation;
      contactsMap := shown;
      session.editsOut := session.editsOut + [edit];
      session.history := session.history + [Past(values, Out)];
    }

    /** stillCurrent(): the session and the account are those the edit was made in. */
    predicate StillCurrent(call: Call<C>)
      reads this
    {
      account == call.account && session == call.session
    }

    ghost predicate Separate(call: Call<C>)
      reads this
    {
      // the account changes only through logout, which starts a new session
      call.session == session ==> call.account == account
    }

    /** editsOut.splice(editsOut.indexOf(edit), 1) */
    method Splice(call: Call<C>) returns (p: nat, edit: Edit<C>)
      requires Awaited(call)
      modifies call.session`editsOut
      ensures p < |old(call.session.editsOut)| && edit == old(call.session.editsOut)[p]
      ensures edit.generation == call.generation
      ensures call.session.editsOut == Without(old(call.session.editsOut), p)
    {
      ghost var e :| e in call.session.editsOut && e.generation == call.generation;
      p := 0;
      while call.session.editsOut[p].generation != call.generation
        invariant 0 <= p < |call.session.editsOut|
        invariant forall q :: 0 <= q < p ==> call.session.editsOut[q].generation != call.generation
        decreases |call.session.editsOut| - p
      {
        p := p + 1;
      }
      edit := call.session.editsOut[p];
      call.session.editsOut := call.session.editsOut[..p] + call.session.editsOut[p + 1..];
    }

    /** takeBack on the store's own session, the failed edit already spliced out. */
    method TakeBackShown(edit: Edit<C>, ghost out: seq<Edit<C>>, ghost p: nat)
      requires Inv(session.start, session.base, session.history, out, session.acceptedOf, contactsMap)
      requires p < |out| && edit == out[p] && session.editsOut == Without(out, p)
      requires session.start + |session.history| == contactsEdits
      modifies this`contactsMap, session`editsOut, session`history
      ensures Valid() && Others(session.editsOut, edit.generation) == Others(out, edit.generation)
      ensures 0 <= IndexOf(session.start, edit) < |old(session.history)|
      ensures session.history == Settle(old(session.history), IndexOf(session.start, edit), Failed)
    {
      var out', shown := TakeBack(edit, session.acceptedOf, session.editsOut, contactsMap);
      FailureKeepsInv(session.start, session.base, session.history, out, p, session.acceptedOf, contactsMap, out', shown);
      SpliceKeepsOthers(out, p, out');
      session.editsOut, contactsMap := out', shown;
      session.history := Settle(session.history, IndexOf(session.start, edit), Failed);
    }

    /** writeContacts when the server does not take the edit. */
    method Fail(call: Call<C>)
      requires Valid() && Awaited(call) && Separate(call)
      modifies this`contactsMap, call.session
      ensures Valid() && Others(call.session.editsOut, call.generation) == Others(old(call.session.editsOut), call.generation)
      ensures call.session != session ==> contactsMap == old(contactsMap)
      ensures call.session == session ==>
                var k := call.generation - old(session.start) - 1;
                && session.start == old(session.start) && session.base == old(session.base)
                && 0 <= k < |old(session.history)| && session.history == Settle(old(session.history), k, Failed)
    {
      ghost var out := call.session.editsOut;
      var p, edit := Splice(call);
      if StillCurrent(call) {
        TakeBackShown(edit, out, p);
      } else {
        SpliceKeepsOthers(out, p, call.session.editsOut);
      }
    }

    /** The part of an acceptance that every edit has: it is out no more, and newest of its contacts. */
    method SettleAccepted(call: Call<C>)
      requires Valid() && Awaited(call)
      modifies call.session
      ensures Valid() && Others(call.session.editsOut, call.generation) == Others(old(call.session.editsOut), call.generation)
      ensures |call.session.editsOut| == |old(call.session.editsOut)| - 1
      ensures call.session.start == old(call.session.start) && call.session.base == old(call.session.base)
      ensures call.session == session ==>
                && 0 <= call.generation - session.start - 1 < |old(session.history)|
                && session.history == Settle(old(session.history), call.generation - session.start - 1, Accepted)
    {
      ghost var out := call.session.editsOut;
      var p, edit := Splice(call);
      SpliceKeepsOthers(out, p, call.session.editsOut);
      if call.session == session {
        OneOfEachGeneration(session.start, session.history, out, p, call.keys);
      }
      var acceptedOf := MarkAccepted(call.session.acceptedOf, call.keys, call.generation);
      if call.session == session {
        AcceptanceKeepsInv(session.start, session.base, session.history, out, p, session.acceptedOf, contactsMap, acceptedOf);
        IndexWithin(session.start, session.history, out, p);
        session.history := Settle(session.history, IndexOf(session.start, edit), Accepted);
      }
      call.session.acceptedOf := acceptedOf;
      assert call.session == session ==>
          Inv(session.start, session.base, session.history, session.editsOut, session.acceptedOf, contactsMap) == true;
    }

    /** writeContacts when the server takes the edit and answers with the list it holds. */
    method Accept(call: Call<C>, answer: Contacts<C>)
      requires Valid() && Awaited(call) && Separate(call)
      modifies this`contactsMap, call.session
      ensures Others(call.session.editsOut, call.generation) == Others(old(call.session.editsOut), call.generation)
      // an edit of an ended session shows nothing
      ensures call.session != session ==> Valid() && contactsMap == old(contactsMap)
      // an edit that is not the newest changes nothing shown
      ensures call.session == session && call.generation != contactsEdits ==>
                && Valid() && contactsMap == old(contactsMap) && session.base == old(session.base)
                && session.start == old(session.start) && 0 <= call.generation - session.start - 1 < |old(session.history)|
                && session.history == Settle(old(session.history), call.generation - session.start - 1, Accepted)
      // the answer to the newest edit replaces the map; with no older edit still out it is the new base
      ensures call.session == session && call.generation == contactsEdits ==>
                && contactsMap == answer
                && (|old(session.editsOut)| == 1 ==> Valid() && session.base == answer && session.history == [])
      // with older edits out the history goes on, and the screen stays right exactly when nothing on it changes
      ensures call.session == session && call.generation == contactsEdits && |old(session.editsOut)| > 1 ==>
                && session.base == old(session.base) && session.start == old(session.start)
                && 0 <= call.generation - session.start - 1 < |old(session.history)|
                && session.history == Settle(old(session.history), call.generation - session.start - 1, Accepted)
                && (Valid() <==> answer == old(contactsMap))
    {
      SettleAccepted(call);
      if StillCurrent(call) && call.generation == contactsEdits {
        InvShowsOne(session.start, session.base, session.history, session.editsOut, session.acceptedOf, contactsMap, answer);
        contactsMap := answer;
        if session.editsOut == [] {
          session.base, session.start, session.history := answer, contactsEdits, [];
        }
      }
    }

    /** logout's reset of the contacts. */
    method Logout()
      requires Valid()
      modifies this
      ensures Valid() && fresh(session) && contactsMap == map[] && session.history == [] && session.editsOut == []
      ensures contactsEdits == old(contactsEdits)
    {
      contactsMap := map[];
      session := new Session<C>(contactsEdits, map[]);
    }
  }

  // ---------- any run ----------

  /** The writes not yet settled: each still out in the session it was made in, under its own generation. */
  ghost predicate Pending<C(!new), D>(store: ContactsStore<C, D>, calls: seq<Call<C>>)
    reads store, set i | 0 <= i < |calls| :: calls[i].session
  {
    && (forall i :: 0 <= i < |calls| ==> Waits(store, calls[i]))
    && (forall i, j :: 0 <= i < j < |calls| ==> calls[i].generation != calls[j].generation)
  }

  ghost predicate Waits<C(!new), D>(store: ContactsStore<C, D>, call: Call<C>)
    reads store, call.session
  {
    Awaited(call) && store.Separate(call) && call.generation <= store.contactsEdits
  }

  method BeginOne<C(!new), D>(store: ContactsStore<C, D>, calls: seq<Call<C>>, edits: map<JsString, Option<D>>) returns (calls': seq<Call<C>>)
    requires store.Valid() && Pending(store, calls)
    modifies store, store.session
    ensures store.Valid() && Pending(store, calls') && store.session == old(store.session)
    ensures forall i :: 0 <= i < |calls'| ==> calls'[i].session == store.session || calls'[i] in calls
  {
    var call := store.Begin(edits);
    calls' := calls + [call];
    forall i | 0 <= i < |calls|
      ensures Waits(store, calls[i])
    {
      assert old(Waits(store, calls[i]));
    }
  }

  /** A write settles. The answer to the newest edit waits while older ones are out, unless it leaves the screen as it is. */
  method SettleOne<C(!new, ==), D>(store: ContactsStore<C, D>, calls: seq<Call<C>>, i: nat, taken: bool, answer: Contacts<C>) returns (calls': seq<Call<C>>)
    requires store.Valid() && Pending(store, calls) && i < |calls|
    modifies store, calls[i].session
    ensures store.Valid() && Pending(store, calls') && store.session == old(store.session)
    ensures forall j :: 0 <= j < |calls'| ==> calls'[j] in calls
  {
    var call := calls[i];
    calls' := calls;
    ghost var before := call.session.editsOut;
    assert Waits(store, call);
    if !taken {
      store.Fail(call);
    } else if call.session != store.session || call.generation != store.contactsEdits || |store.session.editsOut| == 1
              || answer == store.contactsMap {
      store.Accept(call, answer);
    } else {
      return;
    }
    calls' := calls[..i] + calls[i + 1..];
    forall j | 0 <= j < |calls| && j != i
      ensures Waits(store, calls[j])
    {
      assert old(Waits(store, calls[j])) && calls[j].generation != call.generation;
      InOthers(before, call.generation, calls[j].generation, calls[j].keys);
      InOthers(call.session.editsOut, call.generation, calls[j].generation, calls[j].keys);
    }
    forall j | 0 <= j < |calls'|
      ensures calls'[j] == calls[if j < i then j else j + 1]
    {
    }
  }

  /** Any interleaving of edits, acceptances, failures and sign-outs, with writes of ended sessions settling late, keeps
      every contact showing what it should. Left out is the one acceptance that does not: of the newest edit while older
      ones are out, with an answer that would change the screen. */
  method AnyRun<C(!new, ==), D>(store: ContactsStore<C, D>, steps: nat, edits: nat -> map<JsString, Option<D>>, answers: nat -> Contacts<C>)
    requires store.Valid()
    modifies store, store.session
    ensures store.Valid()
  {
    var calls: seq<Call<C>> := [];
    for n := 0 to steps
      invariant store.Valid() && Pending(store, calls)
      invariant store.session == old(store.session) || fresh(store.session)
      invariant forall i :: 0 <= i < |calls| ==> calls[i].session == old(store.session) || fresh(calls[i].session)
    {
      var event: nat := *;
      if event == 0 {
        calls := BeginOne(store, calls, edits(n));
      } else if event == 1 {
        ghost var before := calls;
        store.Logout();
        assert forall i :: 0 <= i < |calls| ==> Waits(store, calls[i]);
      } else if |calls| > 0 {
        var i: nat := *;
        calls := SettleOne(store, calls, i % |calls|, event == 2, answers(n));
      }
    }
  }
}
