/** Signed revisions of a dialog, what they cite, and reachability through citations. */
module DialogRows {
  import opened Prelude
  import opened JsText

  /** An admitted message row. refs is None while its blob cannot be decrypted. */
  datatype Row = Row(
    messageId: JsString,
    signHash: JsString,
    parent: Option<JsString>,
    refs: Option<map<JsString, JsString>>,
    timestamp: int,
    deleted: bool)

  /** bySignHash: the revisions a device has admitted. */
  type Known = map<JsString, Row>

  ghost predicate Keyed(known: Known) {
    forall sh :: sh in known ==> known[sh].signHash == sh
  }

  function RefTargets(row: Row): set<JsString> {
    match row.refs case None => {} case Some(refs) => refs.Values
  }

  /** The sign hashes a revision points at: its parent and its readable refs. */
  function Cites(row: Row): set<JsString> {
    (match row.parent case None => {} case Some(p) => {p}) + RefTargets(row)
  }

  // ---------- walks ----------

  ghost predicate Steps(known: Known, path: seq<JsString>) {
    forall i :: 0 <= i < |path| - 1 ==> path[i] in known && path[i + 1] in Cites(known[path[i]])
  }

  ghost predicate Leads(known: Known, roots: set<JsString>, path: seq<JsString>, sh: JsString) {
    |path| > 0 && path[0] in roots && path[|path| - 1] == sh && Steps(known, path)
  }

  ghost predicate Reachable(known: Known, roots: set<JsString>, sh: JsString) {
    exists path :: Leads(known, roots, path, sh)
  }

  lemma {:induction false} RootReachable(known: Known, roots: set<JsString>, sh: JsString)
    requires sh in roots
    ensures Reachable(known, roots, sh)
  {
    assert Leads(known, roots, [sh], sh);
  }

  lemma {:induction false} StepReachable(known: Known, roots: set<JsString>, a: JsString, b: JsString)
    requires Reachable(known, roots, a) && a in known && b in Cites(known[a])
    ensures Reachable(known, roots, b)
  {
    var path :| Leads(known, roots, path, a);
    assert Leads(known, roots, path + [b], b);
  }

  /** A set that holds the roots and is closed under citation holds everything reachable. */
  lemma {:induction false} ClosedHoldsPath(known: Known, roots: set<JsString>, s: set<JsString>, path: seq<JsString>, sh: JsString)
    requires Leads(known, roots, path, sh) && roots <= s
    requires forall a :: a in s && a in known ==> Cites(known[a]) <= s
    ensures sh in s
    decreases |path|
  {
    if |path| > 1 {
      var a := path[|path| - 2];
      assert Leads(known, roots, path[..|path| - 1], a);
      ClosedHoldsPath(known, roots, s, path[..|path| - 1], a);
    }
  }

  lemma {:induction false} ClosedHoldsReachable(known: Known, roots: set<JsString>, s: set<JsString>)
    requires roots <= s
    requires forall a :: a in s && a in known ==> Cites(known[a]) <= s
    ensures forall sh :: Reachable(known, roots, sh) ==> sh in s
  {
    forall sh | Reachable(known, roots, sh)
      ensures sh in s
    {
      var path :| Leads(known, roots, path, sh);
      ClosedHoldsPath(known, roots, s, path, sh);
    }
  }
}
