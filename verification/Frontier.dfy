/** frontier_root: the length-framed hash of a frontier's sorted (message_id, sign_hash) pairs. */
module Frontier {
  import opened JsText
  import opened Records
  import opened Framing

  type FrontierMap = map<JsString, JsString>

  const FRONTIER_DOMAIN: Bytes := Ascii("BUCKITUP_DIALOG_FRONTIER_V2")
  const FRONTIER_PREFIX: Bytes := Ascii("dfr_")

  function Frames(pairs: seq<Entry<JsString>>): Bytes {
    if pairs == [] then []
    else Framed(Utf8(pairs[0].key)) + (Framed(Utf8(pairs[0].value)) + Frames(pairs[1..]))
  }

  function PairsPreimage(pairs: seq<Entry<JsString>>): Bytes {
    FRONTIER_DOMAIN + (U32(|pairs|) + Frames(pairs))
  }

  ghost function FrontierPreimage(f: FrontierMap): Bytes {
    PairsPreimage(SortBy(Enumerate(f), EntryKey))
  }

  ghost function FrontierRoot(h: Hasher, f: FrontierMap): JsString {
    FRONTIER_PREFIX + BytesToHex(h(FrontierPreimage(f)))
  }

  function Parts(pairs: seq<Entry<JsString>>): seq<Bytes> {
    if pairs == [] then []
    else
      var id, sign := Utf8(pairs[0].key), Utf8(pairs[0].value);
      [U32(|id|), id, U32(|sign|), sign] + Parts(pairs[1..])
  }

  lemma {:induction false} FlattenFour(a: Bytes, b: Bytes, c: Bytes, d: Bytes, rest: seq<Bytes>)
    ensures Flatten([a, b, c, d] + rest) == (a + b) + ((c + d) + Flatten(rest))
  {
    FlattenAppend([a, b, c, d], rest);
    assert Flatten([d]) == d + Flatten([]) && Flatten([c, d]) == c + Flatten([c, d][1..]);
    assert Flatten([b, c, d]) == b + Flatten([b, c, d][1..]);
    assert Flatten([a, b, c, d]) == a + Flatten([a, b, c, d][1..]);
    assert [c, d][1..] == [d] && [b, c, d][1..] == [c, d] && [a, b, c, d][1..] == [b, c, d];
  }

  lemma {:induction false} PartsFlatten(pairs: seq<Entry<JsString>>)
    ensures Flatten(Parts(pairs)) == Frames(pairs)
  {
    if pairs != [] {
      var id, sign := Utf8(pairs[0].key), Utf8(pairs[0].value);
      PartsFlatten(pairs[1..]);
      FlattenFour(U32(|id|), id, U32(|sign|), sign, Parts(pairs[1..]));
    }
  }

  method CollectParts(pairs: seq<Entry<JsString>>) returns (parts: seq<Bytes>)
    ensures parts == [FRONTIER_DOMAIN, U32(|pairs|)] + Parts(pairs)
  {
    parts := [FRONTIER_DOMAIN, U32(|pairs|)];
    for i := 0 to |pairs|
      invariant parts + Parts(pairs[i..]) == [FRONTIER_DOMAIN, U32(|pairs|)] + Parts(pairs)
    {
      var id, sign := Utf8(pairs[i].key), Utf8(pairs[i].value);
      assert pairs[i..][0] == pairs[i] && pairs[i..][1..] == pairs[i + 1..];
      parts := parts + [U32(|id|), id, U32(|sign|), sign];
    }
    assert Parts(pairs[|pairs|..]) == [];
  }

  /** deriveFrontierRoot depends on the map alone, not on the order its entries were added in. */
  method DeriveFrontierRoot(h: Hasher, frontier: seq<Entry<JsString>>) returns (root: JsString)
    requires Distinct(frontier)
    ensures root == FrontierRoot(h, RecordOf(frontier))
  {
    var pairs := SortBy(frontier, EntryKey);
    SortForgetsOrder(frontier, Enumerate(RecordOf(frontier)));
    var parts := CollectParts(pairs);
    PartsFlatten(pairs);
    assert Flatten(parts) == PairsPreimage(pairs) by {
      assert parts[1..][1..] == Parts(pairs);
    }
    var d := ConcatHash(h, parts);
    root := FRONTIER_PREFIX + BytesToHex(d);
  }

  // ---------- binding ----------

  ghost predicate FramableMap(f: FrontierMap) {
    forall k :: k in f ==> WellFormed(k) && WellFormed(f[k]) && |Utf8(k)| < TWO32 && |Utf8(f[k])| < TWO32
  }

  ghost predicate FramablePairs(ps: seq<Entry<JsString>>) {
    forall i :: 0 <= i < |ps| ==>
      WellFormed(ps[i].key) && WellFormed(ps[i].value) && |Utf8(ps[i].key)| < TWO32 && |Utf8(ps[i].value)| < TWO32
  }

  lemma {:induction false} FramesInjective(ps: seq<Entry<JsString>>, qs: seq<Entry<JsString>>)
    requires FramablePairs(ps) && FramablePairs(qs) && Frames(ps) == Frames(qs)
    ensures ps == qs
  {
    if ps != [] && qs != [] {
      FirstPairEqual(ps, qs);
      FramesInjective(ps[1..], qs[1..]);
      assert ps == [ps[0]] + ps[1..] && qs == [qs[0]] + qs[1..];
    }
  }

  lemma {:induction false} FirstPairEqual(ps: seq<Entry<JsString>>, qs: seq<Entry<JsString>>)
    requires FramablePairs(ps) && FramablePairs(qs) && Frames(ps) == Frames(qs) && ps != [] && qs != []
    ensures ps[0] == qs[0] && Frames(ps[1..]) == Frames(qs[1..])
  {
    var p, q := ps[0], qs[0];
    var u, v := Frames(ps[1..]), Frames(qs[1..]);
    FramePrefix(Utf8(p.key), Utf8(q.key), Framed(Utf8(p.value)) + u, Framed(Utf8(q.value)) + v);
    FramePrefix(Utf8(p.value), Utf8(q.value), u, v);
    Utf8Injective(p.key, q.key);
    Utf8Injective(p.value, q.value);
  }

  lemma {:induction false} SortedFramable(f: FrontierMap)
    requires FramableMap(f)
    ensures FramablePairs(SortBy(Enumerate(f), EntryKey))
  {
    var es := Enumerate(f);
    SortSorts(es, EntryKey);
    var ps := SortBy(es, EntryKey);
    forall i | 0 <= i < |ps|
      ensures ps[i].key in f && f[ps[i].key] == ps[i].value
    {
      assert ps[i] in multiset(ps);
      RecordMembers(es, ps[i]);
    }
  }

  /** One frontier root for two frontiers: the same frontier, or their two pre-images collide. */
  lemma {:induction false} FrontierBinding(h: Hasher, f: FrontierMap, g: FrontierMap)
    requires FramableMap(f) && FramableMap(g) && FrontierRoot(h, f) == FrontierRoot(h, g)
    ensures f == g || Collide(h, {FrontierPreimage(f)}, {FrontierPreimage(g)})
  {
    var p, q := FrontierPreimage(f), FrontierPreimage(g);
    assert FrontierRoot(h, f)[4..] == BytesToHex(h(p)) && FrontierRoot(h, g)[4..] == BytesToHex(h(q));
    HexInjective(h(p), h(q));
    if p == q {
      SamePreimage(f, g);
    }
  }

  lemma {:induction false} SamePreimage(f: FrontierMap, g: FrontierMap)
    requires FramableMap(f) && FramableMap(g) && FrontierPreimage(f) == FrontierPreimage(g)
    ensures f == g
  {
    var ps, qs := SortBy(Enumerate(f), EntryKey), SortBy(Enumerate(g), EntryKey);
    var n := |FRONTIER_DOMAIN| + 4;
    assert PairsPreimage(ps)[n..] == Frames(ps) && PairsPreimage(qs)[n..] == Frames(qs);
    SortedFramable(f);
    SortedFramable(g);
    FramesInjective(ps, qs);
    SameSortedSameMap(f, g);
  }

  lemma {:induction false} SameSortedSameMap(f: FrontierMap, g: FrontierMap)
    requires SortBy(Enumerate(f), EntryKey) == SortBy(Enumerate(g), EntryKey)
    ensures f == g
  {
    var es, fs := Enumerate(f), Enumerate(g);
    SortPermutes(es, EntryKey);
    SortPermutes(fs, EntryKey);
    SameEntriesSameRecord(es, fs);
  }
}
