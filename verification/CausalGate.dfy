/** The causal admission rule of dialogDag.ts, and a gate that re-runs it on waiting rows. */
module CausalGate {
  import opened JsText
  import opened Records

  datatype Revision = Revision(messageId: JsString, signHash: JsString)

  function RevisionKey(r: Revision): JsString {
    r.messageId + Ascii("|") + r.signHash
  }

  /** No '|' in the message id, as in the wire grammar: then a key names one revision. */
  lemma {:induction false} RevisionKeyInjective(r: Revision, q: Revision)
    requires 124 !in r.messageId && 124 !in q.messageId && RevisionKey(r) == RevisionKey(q)
    ensures r == q
  {
    var k, l := RevisionKey(r), RevisionKey(q);
    var m, n := |r.messageId|, |q.messageId|;
    assert k[m] == 124 && l[n] == 124;
    assert k[..m] == r.messageId && l[..n] == q.messageId;
    assert forall i :: 0 <= i < m ==> k[i] == k[..m][i];
    assert forall i :: 0 <= i < n ==> l[i] == l[..n][i];
    assert k[m + 1..] == r.signHash && l[n + 1..] == q.signHash;
  }

  datatype Verdict =
    | Ok(isGenesis: bool)
    | Waiting(missing: seq<Revision>)
    | Blocked(blockedBy: seq<Revision>)
    | SelfReference

  /** A row as delivered: its revision, its decrypted refs, and whether its signature can never hold. */
  datatype Delivery = Delivery(revision: Revision, refs: seq<Entry<JsString>>, invalid: bool)

  function KeyOf(d: Delivery): JsString { RevisionKey(d.revision) }

  function Target(e: Entry<JsString>): Revision { Revision(e.key, e.value) }

  function RefKeys(refs: seq<Entry<JsString>>): set<JsString> {
    set e | e in refs :: RevisionKey(Target(e))
  }

  ghost predicate CitesItself(d: Delivery) {
    exists e :: e in d.refs && Target(e) == d.revision
  }

  /** The refs not admitted, those that can never be and those that may still be. */
  function Unadmitted(refs: seq<Entry<JsString>>, admitted: set<JsString>, terminal: set<JsString>, dead: bool): seq<Revision> {
    if refs == [] then []
    else
      var rest := Unadmitted(refs[..|refs| - 1], admitted, terminal, dead);
      var t := Target(refs[|refs| - 1]);
      if RevisionKey(t) !in admitted && (RevisionKey(t) in terminal <==> dead) then rest + [t] else rest
  }

  lemma {:induction false} UnadmittedExact(refs: seq<Entry<JsString>>, admitted: set<JsString>, terminal: set<JsString>)
    ensures Unadmitted(refs, admitted, terminal, true) == [] <==> RefKeys(refs) * terminal <= admitted
    ensures Unadmitted(refs, admitted, terminal, true) == [] && Unadmitted(refs, admitted, terminal, false) == []
            <==> RefKeys(refs) <= admitted
  {
    if refs != [] {
      var e := refs[|refs| - 1];
      UnadmittedExact(refs[..|refs| - 1], admitted, terminal);
      assert refs == refs[..|refs| - 1] + [e];
      assert RefKeys(refs) == RefKeys(refs[..|refs| - 1]) + {RevisionKey(Target(e))};
    } else {
      assert RefKeys(refs) == {};
    }
  }

  /** Listed are exactly the cited revisions that are not admitted: those that never will be, or those that still may. */
  lemma {:induction false} UnadmittedMembers(refs: seq<Entry<JsString>>, admitted: set<JsString>, terminal: set<JsString>, dead: bool, t: Revision)
    ensures t in Unadmitted(refs, admitted, terminal, dead) <==>
            (exists e :: e in refs && Target(e) == t) && RevisionKey(t) !in admitted && (RevisionKey(t) in terminal <==> dead)
  {
    if refs != [] {
      var front, last := refs[..|refs| - 1], refs[|refs| - 1];
      UnadmittedMembers(front, admitted, terminal, dead, t);
      assert refs == front + [last];
    }
  }

  /** validateRefs. */
  method ValidateRefs(d: Delivery, admitted: set<JsString>, terminal: set<JsString>) returns (v: Verdict)
    ensures v.SelfReference? <==> CitesItself(d)
    ensures v.Ok? <==> !CitesItself(d) && RefKeys(d.refs) <= admitted
    ensures v.Ok? ==> (v.isGenesis <==> d.refs == [])
    ensures v.Blocked? <==> !CitesItself(d) && !(RefKeys(d.refs) * terminal <= admitted)
    ensures v.Blocked? ==> v.blockedBy == Unadmitted(d.refs, admitted, terminal, true)
    ensures v.Waiting? ==> v.missing == Unadmitted(d.refs, admitted, terminal, false)
  {
    UnadmittedExact(d.refs, admitted, terminal);
    if |d.refs| == 0 {
      return Ok(true);
    }
    var missing: seq<Revision>, blockedBy: seq<Revision> := [], [];
    for i := 0 to |d.refs|
      invariant forall j :: 0 <= j < i ==> Target(d.refs[j]) != d.revision
      invariant missing == Unadmitted(d.refs[..i], admitted, terminal, false)
      invariant blockedBy == Unadmitted(d.refs[..i], admitted, terminal, true)
    {
      assert d.refs[..i + 1][..i] == d.refs[..i];
      var t := Target(d.refs[i]);
      if t == d.revision {
        return SelfReference;
      }
      var key := RevisionKey(t);
      if key in admitted {
        continue;
      }
      if key in terminal {
        blockedBy := blockedBy + [t];
      } else {
        missing := missing + [t];
      }
    }
    assert d.refs[..|d.refs|] == d.refs;
    if |blockedBy| > 0 {
      return Blocked(blockedBy);
    }
    if |missing| > 0 {
      return Waiting(missing);
    }
    v := Ok(false);
  }

  // ---------- the gate ----------

  /** Can this row be decided now, given what is admitted and what never will be? */
  ghost predicate Admissible(d: Delivery, admitted: set<JsString>) {
    !d.invalid && !CitesItself(d) && RefKeys(d.refs) <= admitted
  }

  ghost predicate Doomed(d: Delivery, admitted: set<JsString>, terminal: set<JsString>) {
    d.invalid || CitesItself(d) || !(RefKeys(d.refs) * terminal <= admitted)
  }

  /** Each row of the list is admissible once the ones before it are in. */
  ghost predicate AdmittedInOrder(ds: set<Delivery>, order: seq<Delivery>) {
    forall i :: 0 <= i < |order| ==> order[i] in ds && Admissible(order[i], KeySet(order[..i]))
  }

  ghost predicate DoomedBy(d: Delivery, dead: set<JsString>) {
    d.invalid || CitesItself(d) || RefKeys(d.refs) * dead != {}
  }

  ghost predicate DoomedInOrder(ds: set<Delivery>, order: seq<Delivery>) {
    forall i :: 0 <= i < |order| ==> order[i] in ds && DoomedBy(order[i], KeySet(order[..i]))
  }

  function KeySet(order: seq<Delivery>): set<JsString> {
    set d | d in order :: KeyOf(d)
  }

  /** One key, one signed content. */
  ghost predicate Functional(ds: set<Delivery>) {
    forall d, e :: d in ds && e in ds && KeyOf(d) == KeyOf(e) ==> d == e
  }

  ghost predicate Admittable(ds: set<Delivery>, admitted: set<JsString>) {
    exists order :: KeySet(order) == admitted && AdmittedInOrder(ds, order)
  }

  ghost predicate Doomable(ds: set<Delivery>, terminal: set<JsString>) {
    exists order :: KeySet(order) == terminal && DoomedInOrder(ds, order)
  }

  /** A gate state explained by what was delivered. */
  ghost predicate Explained(ds: set<Delivery>, admitted: set<JsString>, terminal: set<JsString>, waiting: seq<Delivery>) {
    && Admittable(ds, admitted) && Doomable(ds, terminal) && admitted !! terminal
    && (forall d :: d in waiting ==> d in ds && KeyOf(d) !in admitted && KeyOf(d) !in terminal)
    && (forall d :: d in ds ==> KeyOf(d) in admitted || KeyOf(d) in terminal || d in waiting)
  }

  /** No waiting row can be decided. */
  ghost predicate Settled(admitted: set<JsString>, terminal: set<JsString>, waiting: seq<Delivery>) {
    forall d :: d in waiting ==> Undecided(d, admitted, terminal)
  }

  ghost predicate Undecided(d: Delivery, admitted: set<JsString>, terminal: set<JsString>) {
    !Admissible(d, admitted) && !Doomed(d, admitted, terminal)
  }

  datatype Decision = Admit | Doom | Wait

  method Recheck(d: Delivery, admitted: set<JsString>, terminal: set<JsString>) returns (r: Decision)
    ensures r.Admit? ==> Admissible(d, admitted)
    ensures r.Doom? ==> Doomed(d, admitted, terminal)
    ensures r.Wait? ==> Undecided(d, admitted, terminal)
  {
    var verdict := ValidateRefs(d, admitted, terminal);
    r := if d.invalid || verdict.SelfReference? || verdict.Blocked? then Doom else if verdict.Ok? then Admit else Wait;
  }

  lemma {:induction false} KeySetSnoc(order: seq<Delivery>, d: Delivery)
    ensures KeySet(order + [d]) == KeySet(order) + {KeyOf(d)}
  {
  }

  lemma {:induction false} KeySetPrefix(order: seq<Delivery>, n: nat)
    requires 0 < n <= |order|
    ensures KeySet(order[..n]) == KeySet(order[..n - 1]) + {KeyOf(order[n - 1])}
  {
    assert order[..n] == order[..n - 1] + [order[n - 1]];
  }

  lemma {:induction false} AdmitOne(ds: set<Delivery>, admitted: set<JsString>, d: Delivery)
    requires Admittable(ds, admitted) && d in ds && Admissible(d, admitted)
    ensures Admittable(ds, admitted + {KeyOf(d)})
  {
    var order :| KeySet(order) == admitted && AdmittedInOrder(ds, order);
    KeySetSnoc(order, d);
    forall i | 0 <= i < |order + [d]|
      ensures (order + [d])[i] in ds && Admissible((order + [d])[i], KeySet((order + [d])[..i]))
    {
      assert (order + [d])[..i] == order[..i];
      assert order[..|order|] == order;
    }
    assert AdmittedInOrder(ds, order + [d]);
  }

  lemma {:induction false} DoomOne(ds: set<Delivery>, admitted: set<JsString>, terminal: set<JsString>, d: Delivery)
    requires Doomable(ds, terminal) && d in ds && Doomed(d, admitted, terminal)
    ensures Doomable(ds, terminal + {KeyOf(d)})
  {
    var order :| KeySet(order) == terminal && DoomedInOrder(ds, order);
    KeySetSnoc(order, d);
    forall i | 0 <= i < |order + [d]|
      ensures (order + [d])[i] in ds && DoomedBy((order + [d])[i], KeySet((order + [d])[..i]))
    {
      assert (order + [d])[..i] == order[..i];
      assert order[..|order|] == order;
    }
    assert DoomedInOrder(ds, order + [d]);
  }

  /** The gate of one dialog, as far as the rule needs one: assumed of it is that it re-runs validateRefs on waiting rows
      whenever the admitted or the terminal set grows, in any order. */
  class Gate {
    var admitted: set<JsString>
    var terminal: set<JsString>
    var waiting: seq<Delivery>
    ghost var delivered: set<Delivery>

    ghost predicate Valid()
      reads this
    {
      && Functional(delivered) && Explained(delivered, admitted, terminal, waiting)
      && (forall i, j :: 0 <= i < j < |waiting| ==> waiting[i] != waiting[j])
    }

    constructor ()
      ensures Valid() && delivered == {} && Settled(admitted, terminal, waiting)
    {
      admitted, terminal, waiting, delivered := {}, {}, [], {};
      new;
      assert KeySet([]) == {} && AdmittedInOrder(delivered, []) && DoomedInOrder(delivered, []);
    }

    /** Takes one row in. The admitted set only grows, and afterwards no waiting row can be decided. */
    method Deliver(d: Delivery)
      requires Valid() && Functional(delivered + {d})
      modifies this
      ensures Valid() && delivered == old(delivered) + {d}
      ensures Settled(admitted, terminal, waiting)
      ensures old(admitted) <= admitted && old(terminal) <= terminal
    {
      if KeyOf(d) !in admitted && KeyOf(d) !in terminal && d !in waiting {
        waiting := waiting + [d];
      }
      delivered := delivered + {d};
      assert Functional(delivered);
      GrowDelivered(old(delivered), d, admitted, terminal, old(waiting), waiting);
      Settle();
    }

    method Settle()
      requires Valid()
      modifies this`admitted, this`terminal, this`waiting
      ensures Valid() && Settled(admitted, terminal, waiting)
      ensures old(admitted) <= admitted && old(terminal) <= terminal
    {
      var i: nat := 0;
      while i < |waiting|
        invariant Valid() == true && i <= |waiting| && Settled(admitted, terminal, waiting[..i]) == true
        invariant old(admitted) <= admitted && old(terminal) <= terminal
        decreases |waiting|, |waiting| - i
      {
        i := CheckOne(i);
      }
      assert waiting[..i] == waiting;
    }

    /** One turn of the loop: on to the next row, or back to the first one after a row could be decided. */
    method CheckOne(i: nat) returns (next: nat)
      requires Valid() && i < |waiting| && Settled(admitted, terminal, waiting[..i])
      modifies this`admitted, this`terminal, this`waiting
      ensures Valid() && next <= |waiting| && Settled(admitted, terminal, waiting[..next])
      ensures old(admitted) <= admitted && old(terminal) <= terminal
      ensures |waiting| < old(|waiting|) || (|waiting| == old(|waiting|) && next == i + 1)
    {
      var decision := Recheck(waiting[i], admitted, terminal);
      if decision.Wait? {
        next := i + 1;
        assert waiting[..next] == waiting[..i] + [waiting[i]];
      } else {
        TakeOut(i, waiting[i], decision.Admit?);
        next := 0;
      }
    }

    /** Moves one decided row out of the waiting list. */
    method TakeOut(i: nat, d: Delivery, admit: bool)
      requires Valid() && i < |waiting| && waiting[i] == d
      requires if admit then Admissible(d, admitted) else Doomed(d, admitted, terminal)
      modifies this`admitted, this`terminal, this`waiting
      ensures Valid()
      ensures admitted == (if admit then old(admitted) + {KeyOf(d)} else old(admitted))
      ensures terminal == (if admit then old(terminal) else old(terminal) + {KeyOf(d)})
      ensures waiting == old(waiting)[..i] + old(waiting)[i + 1..]
    {
      assert d in waiting;
      ghost var a := if admit then admitted + {KeyOf(d)} else admitted;
      ghost var t := if admit then terminal else terminal + {KeyOf(d)};
      if admit {
        AdmitOne(delivered, admitted, d);
      } else {
        DoomOne(delivered, admitted, terminal, d);
      }
      DecideOne(delivered, admitted, terminal, waiting, i, a, t);
      RemoveAt(waiting, i);
      if admit {
        admitted := admitted + {KeyOf(d)};
      } else {
        terminal := terminal + {KeyOf(d)};
      }
      waiting := waiting[..i] + waiting[i + 1..];
    }
  }

  lemma {:induction false} RemoveAt(waiting: seq<Delivery>, i: nat)
    requires i < |waiting| && forall j, k :: 0 <= j < k < |waiting| ==> waiting[j] != waiting[k]
    ensures var w := waiting[..i] + waiting[i + 1..];
            && (forall j, k :: 0 <= j < k < |w| ==> w[j] != w[k])
            && (forall c :: c in w <==> c in waiting && c != waiting[i])
  {
    var w := waiting[..i] + waiting[i + 1..];
    forall c | c in waiting && c != waiting[i]
      ensures c in w
    {
      var j :| 0 <= j < |waiting| && waiting[j] == c;
      assert j < i ==> w[j] == c;
      assert j > i ==> w[j - 1] == c;
    }
    forall j, k | 0 <= j < k < |w|
      ensures w[j] != w[k]
    {
      assert w[j] == waiting[if j < i then j else j + 1] && w[k] == waiting[if k < i then k else k + 1];
    }
  }

  /** The row decided leaves the waiting list for exactly one of the two sets. */
  lemma {:induction false} DecideOne(ds: set<Delivery>, admitted: set<JsString>, terminal: set<JsString>, waiting: seq<Delivery>, i: nat, a: set<JsString>, t: set<JsString>)
    requires Functional(ds) && Explained(ds, admitted, terminal, waiting) && i < |waiting|
    requires forall j, k :: 0 <= j < k < |waiting| ==> waiting[j] != waiting[k]
    requires Takes(admitted, terminal, KeyOf(waiting[i]), a, t)
    requires Admittable(ds, a) && Doomable(ds, t)
    ensures Explained(ds, a, t, waiting[..i] + waiting[i + 1..])
  {
    RemoveAt(waiting, i);
    assert waiting[i] in waiting;
    StillWaiting(ds, admitted, terminal, waiting, i, a, t);
    StillAccounted(ds, admitted, terminal, waiting, i, a, t);
  }

  /** Which of the two sets takes the row in. */
  predicate Takes(admitted: set<JsString>, terminal: set<JsString>, k: JsString, a: set<JsString>, t: set<JsString>) {
    (a == admitted + {k} && t == terminal) || (a == admitted && t == terminal + {k})
  }

  lemma {:induction false} StillWaiting(ds: set<Delivery>, admitted: set<JsString>, terminal: set<JsString>, waiting: seq<Delivery>, i: nat, a: set<JsString>, t: set<JsString>)
    requires Functional(ds) && i < |waiting| && Takes(admitted, terminal, KeyOf(waiting[i]), a, t)
    requires forall d :: d in waiting ==> d in ds && KeyOf(d) !in admitted && KeyOf(d) !in terminal
    requires forall j, k :: 0 <= j < k < |waiting| ==> waiting[j] != waiting[k]
    ensures forall d :: d in waiting[..i] + waiting[i + 1..] ==> d in ds && KeyOf(d) !in a && KeyOf(d) !in t
  {
    RemoveAt(waiting, i);
    forall d | d in waiting[..i] + waiting[i + 1..]
      ensures d in ds && KeyOf(d) !in a && KeyOf(d) !in t
    {
      assert d in waiting && d != waiting[i] && waiting[i] in waiting;
    }
  }

  lemma {:induction false} StillAccounted(ds: set<Delivery>, admitted: set<JsString>, terminal: set<JsString>, waiting: seq<Delivery>, i: nat, a: set<JsString>, t: set<JsString>)
    requires i < |waiting| && Takes(admitted, terminal, KeyOf(waiting[i]), a, t)
    requires forall d :: d in ds ==> KeyOf(d) in admitted || KeyOf(d) in terminal || d in waiting
    ensures forall d :: d in ds ==> KeyOf(d) in a || KeyOf(d) in t || d in waiting[..i] + waiting[i + 1..]
  {
    assert waiting == waiting[..i] + [waiting[i]] + waiting[i + 1..];
  }

  lemma {:induction false} GrowDelivered(ds: set<Delivery>, d: Delivery, admitted: set<JsString>, terminal: set<JsString>, waiting: seq<Delivery>, w: seq<Delivery>)
    requires Explained(ds, admitted, terminal, waiting)
    requires w == if KeyOf(d) !in admitted && KeyOf(d) !in terminal && d !in waiting then waiting + [d] else waiting
    ensures Explained(ds + {d}, admitted, terminal, w)
  {
    var order :| KeySet(order) == admitted && AdmittedInOrder(ds, order);
    assert AdmittedInOrder(ds + {d}, order);
    var dead :| KeySet(dead) == terminal && DoomedInOrder(ds, dead);
    assert DoomedInOrder(ds + {d}, dead);
  }

  // ---------- the result does not depend on delivery order ----------

  /** Membership in a list, with the rows before it. */
  lemma {:induction false} PlaceOf(order: seq<Delivery>, k: JsString) returns (i: nat)
    requires k in KeySet(order)
    ensures i < |order| && KeyOf(order[i]) == k && KeySet(order[..i]) <= KeySet(order)
  {
    var d :| d in order && KeyOf(d) == k;
    i :| i < |order| && order[i] == d;
  }

  /** A row whose refs are all admitted is not among the terminal ones. */
  lemma {:induction false} NotTerminal(ds: set<Delivery>, d: Delivery, admitted: set<JsString>, terminal: set<JsString>)
    requires Functional(ds) && d in ds && Admissible(d, admitted) && Doomable(ds, terminal) && admitted !! terminal
    ensures KeyOf(d) !in terminal
  {
    var dead :| KeySet(dead) == terminal && DoomedInOrder(ds, dead);
    if KeyOf(d) in terminal {
      var i := PlaceOf(dead, KeyOf(d));
    }
  }

  /** A doomed row is not among the admitted ones. */
  lemma {:induction false} NotAdmitted(ds: set<Delivery>, d: Delivery, admitted: set<JsString>, terminal: set<JsString>)
    requires Functional(ds) && d in ds && Doomed(d, admitted, terminal) && Admittable(ds, admitted)
    ensures KeyOf(d) !in admitted
  {
    if KeyOf(d) in admitted {
      AdmittedIsAdmissible(ds, d, admitted);
    }
  }

  lemma {:induction false} AdmittedIsAdmissible(ds: set<Delivery>, d: Delivery, admitted: set<JsString>)
    requires Functional(ds) && d in ds && Admittable(ds, admitted) && KeyOf(d) in admitted
    ensures Admissible(d, admitted)
  {
    var order :| KeySet(order) == admitted && AdmittedInOrder(ds, order);
    var i := PlaceOf(order, KeyOf(d));
    assert order[i] == d;
  }

  lemma {:induction false} AdmissibleIsAdmitted(ds: set<Delivery>, d: Delivery, admitted: set<JsString>, terminal: set<JsString>, waiting: seq<Delivery>)
    requires Functional(ds) && d in ds && Admissible(d, admitted)
    requires Explained(ds, admitted, terminal, waiting) && Settled(admitted, terminal, waiting)
    ensures KeyOf(d) in admitted
  {
    NotTerminal(ds, d, admitted, terminal);
    assert d in waiting ==> Undecided(d, admitted, terminal);
  }

  lemma {:induction false} DoomedIsTerminal(ds: set<Delivery>, d: Delivery, admitted: set<JsString>, terminal: set<JsString>, waiting: seq<Delivery>)
    requires Functional(ds) && d in ds && Doomed(d, admitted, terminal)
    requires Explained(ds, admitted, terminal, waiting) && Settled(admitted, terminal, waiting)
    ensures KeyOf(d) in terminal
  {
    NotAdmitted(ds, d, admitted, terminal);
    assert d in waiting ==> Undecided(d, admitted, terminal);
  }

  lemma {:induction false} DoomedFurther(d: Delivery, dead: set<JsString>, admitted: set<JsString>, terminal: set<JsString>)
    requires DoomedBy(d, dead) && dead <= terminal && admitted !! terminal
    ensures Doomed(d, admitted, terminal)
  {
    if !d.invalid && !CitesItself(d) {
      var k :| k in RefKeys(d.refs) * dead;
      assert k in terminal && k !in admitted;
    }
  }

  lemma {:induction false} DoomedByIsTerminal(ds: set<Delivery>, d: Delivery, dead: set<JsString>, admitted: set<JsString>, terminal: set<JsString>, waiting: seq<Delivery>)
    requires Functional(ds) && d in ds && DoomedBy(d, dead) && dead <= terminal
    requires Explained(ds, admitted, terminal, waiting) && Settled(admitted, terminal, waiting)
    ensures KeyOf(d) in terminal
  {
    DoomedFurther(d, dead, admitted, terminal);
    DoomedIsTerminal(ds, d, admitted, terminal, waiting);
  }

  /** Whatever one gate admitted in some order, a settled gate given the same rows has admitted. */
  lemma {:induction false} AdmittedEverywhere(ds: set<Delivery>, order: seq<Delivery>, n: nat, admitted: set<JsString>, terminal: set<JsString>, waiting: seq<Delivery>)
    requires Functional(ds) && AdmittedInOrder(ds, order) && n <= |order|
    requires Explained(ds, admitted, terminal, waiting) && Settled(admitted, terminal, waiting)
    ensures KeySet(order[..n]) <= admitted
  {
    if n > 0 {
      AdmittedEverywhere(ds, order, n - 1, admitted, terminal, waiting);
      AdmissibleIsAdmitted(ds, order[n - 1], admitted, terminal, waiting);
      KeySetPrefix(order, n);
    }
  }

  lemma {:induction false} DoomedEverywhere(ds: set<Delivery>, order: seq<Delivery>, n: nat, admitted: set<JsString>, terminal: set<JsString>, waiting: seq<Delivery>)
    requires Functional(ds) && DoomedInOrder(ds, order) && n <= |order|
    requires Explained(ds, admitted, terminal, waiting) && Settled(admitted, terminal, waiting)
    ensures KeySet(order[..n]) <= terminal
  {
    if n > 0 {
      DoomedEverywhere(ds, order, n - 1, admitted, terminal, waiting);
      DoomedByIsTerminal(ds, order[n - 1], KeySet(order[..n - 1]), admitted, terminal, waiting);
      KeySetPrefix(order, n);
    }
  }

  lemma {:induction false} OneWay(ds: set<Delivery>, a: set<JsString>, t: set<JsString>, w: seq<Delivery>, a': set<JsString>, t': set<JsString>, w': seq<Delivery>)
    requires Functional(ds) && Explained(ds, a, t, w)
    requires Explained(ds, a', t', w') && Settled(a', t', w')
    ensures a <= a' && t <= t'
  {
    var order :| KeySet(order) == a && AdmittedInOrder(ds, order);
    AdmittedEverywhere(ds, order, |order|, a', t', w');
    assert order[..|order|] == order;
    var dead :| KeySet(dead) == t && DoomedInOrder(ds, dead);
    DoomedEverywhere(ds, dead, |dead|, a', t', w');
    assert dead[..|dead|] == dead;
  }

  /** Two gates that were given the same rows, in any two orders, end with the same admitted and terminal sets. */
  lemma {:induction false} OrderIndependent(ds: set<Delivery>, a: set<JsString>, t: set<JsString>, w: seq<Delivery>, a': set<JsString>, t': set<JsString>, w': seq<Delivery>)
    requires Functional(ds)
    requires Explained(ds, a, t, w) && Settled(a, t, w)
    requires Explained(ds, a', t', w') && Settled(a', t', w')
    ensures a == a' && t == t'
  {
    OneWay(ds, a, t, w, a', t', w');
    OneWay(ds, a', t', w', a, t, w);
  }

  /** What is admitted is causally closed, valid and never cites itself. */
  lemma {:induction false} AdmittedClosed(ds: set<Delivery>, d: Delivery, admitted: set<JsString>, terminal: set<JsString>, waiting: seq<Delivery>)
    requires Functional(ds) && Explained(ds, admitted, terminal, waiting) && d in ds && KeyOf(d) in admitted
    ensures RefKeys(d.refs) <= admitted && !d.invalid && !CitesItself(d) && KeyOf(d) !in terminal
  {
    AdmittedIsAdmissible(ds, d, admitted);
  }

  /** Any number of roots: every valid row that cites nothing is admitted. */
  lemma {:induction false} RootsAdmitted(ds: set<Delivery>, d: Delivery, admitted: set<JsString>, terminal: set<JsString>, waiting: seq<Delivery>)
    requires Functional(ds) && Explained(ds, admitted, terminal, waiting) && Settled(admitted, terminal, waiting)
    requires d in ds && !d.invalid && d.refs == []
    ensures KeyOf(d) in admitted
  {
    assert RefKeys(d.refs) == {};
    AdmissibleIsAdmitted(ds, d, admitted, terminal, waiting);
  }
}
