/** JavaScript objects used as dictionaries: their entries in some order, and the map they denote. */
module Records {
  import opened JsText

  /** One pair of Object.entries. */
  datatype Entry<+V> = Entry(key: JsString, value: V)

  function EntryKey<V>(e: Entry<V>): JsString { e.key }

  ghost predicate Distinct<V>(es: seq<Entry<V>>) {
    forall i, j :: 0 <= i < j < |es| ==> es[i].key != es[j].key
  }

  function RecordOf<V>(es: seq<Entry<V>>): map<JsString, V> {
    if es == [] then map[] else RecordOf(es[1..])[es[0].key := es[0].value]
  }

  lemma {:induction false} RecordHasEntry<V>(es: seq<Entry<V>>, i: nat)
    requires Distinct(es) && i < |es|
    ensures es[i].key in RecordOf(es) && RecordOf(es)[es[i].key] == es[i].value
  {
    if i > 0 {
      assert es[1..][i - 1] == es[i] && es[0].key != es[i].key;
      RecordHasEntry(es[1..], i - 1);
    }
  }

  lemma {:induction false} RecordKeyIsEntry<V>(es: seq<Entry<V>>, k: JsString) returns (i: nat)
    requires k in RecordOf(es)
    ensures i < |es| && es[i].key == k
  {
    if k == es[0].key {
      i := 0;
    } else {
      i := RecordKeyIsEntry(es[1..], k);
      i := i + 1;
    }
  }

  lemma {:induction false} RecordHas<V>(es: seq<Entry<V>>)
    requires Distinct(es)
    ensures forall i :: 0 <= i < |es| ==> es[i].key in RecordOf(es) && RecordOf(es)[es[i].key] == es[i].value
    ensures forall k :: k in RecordOf(es) ==> exists i :: 0 <= i < |es| && es[i].key == k
  {
    forall i | 0 <= i < |es|
      ensures es[i].key in RecordOf(es) && RecordOf(es)[es[i].key] == es[i].value
    {
      RecordHasEntry(es, i);
    }
    forall k | k in RecordOf(es)
      ensures exists i :: 0 <= i < |es| && es[i].key == k
    {
      var i := RecordKeyIsEntry(es, k);
    }
  }

  lemma {:induction false} RecordMembers<V>(es: seq<Entry<V>>, e: Entry<V>)
    requires Distinct(es)
    ensures e in es <==> e.key in RecordOf(es) && RecordOf(es)[e.key] == e.value
  {
    if e in es {
      var i :| 0 <= i < |es| && es[i] == e;
      RecordHasEntry(es, i);
    } else if e.key in RecordOf(es) {
      var i := RecordKeyIsEntry(es, e.key);
      RecordHasEntry(es, i);
    }
  }

  /** Sorting the entries of an object forgets the order they were added in. */
  lemma {:induction false} SortForgetsOrder<V(!new)>(es: seq<Entry<V>>, fs: seq<Entry<V>>)
    requires Distinct(es) && Distinct(fs) && RecordOf(es) == RecordOf(fs)
    ensures SortBy(es, EntryKey) == SortBy(fs, EntryKey)
  {
    SortSorts(es, EntryKey);
    SortSorts(fs, EntryKey);
    var xs, ys := SortBy(es, EntryKey), SortBy(fs, EntryKey);
    forall e: Entry<V>
      ensures e in xs <==> e in ys
    {
      RecordMembers(es, e);
      RecordMembers(fs, e);
      assert e in xs <==> e in multiset(xs);
      assert e in ys <==> e in multiset(ys);
    }
    AscendingUnique(xs, ys, EntryKey);
  }

  lemma {:induction false} EntryCarries<V(!new)>(es: seq<Entry<V>>, fs: seq<Entry<V>>, k: JsString)
    requires Distinct(es) && Distinct(fs) && multiset(es) == multiset(fs) && k in RecordOf(es)
    ensures k in RecordOf(fs) && RecordOf(fs)[k] == RecordOf(es)[k]
  {
    var e := Entry(k, RecordOf(es)[k]);
    RecordMembers(es, e);
    assert e in multiset(es) && e in fs;
    RecordMembers(fs, e);
  }

  lemma {:induction false} SameEntriesSameRecord<V(!new)>(es: seq<Entry<V>>, fs: seq<Entry<V>>)
    requires Distinct(es) && Distinct(fs) && multiset(es) == multiset(fs)
    ensures RecordOf(es) == RecordOf(fs)
  {
    forall k | k in RecordOf(es)
      ensures k in RecordOf(fs) && RecordOf(fs)[k] == RecordOf(es)[k]
    {
      EntryCarries(es, fs, k);
    }
    forall k | k in RecordOf(fs)
      ensures k in RecordOf(es)
    {
      EntryCarries(fs, es, k);
    }
  }

  /** Some order of a map's entries. */
  ghost function Enumerate<V(!new)>(m: map<JsString, V>): (es: seq<Entry<V>>)
    ensures Distinct(es) && RecordOf(es) == m
    ensures forall i :: 0 <= i < |es| ==> es[i].key in m
  {
    if m == map[] then []
    else
      var k :| k in m;
      var rest := Enumerate(m - {k});
      assert ([Entry(k, m[k])] + rest)[1..] == rest;
      [Entry(k, m[k])] + rest
  }

  lemma {:induction false} ConsRecord<V>(e: Entry<V>, es: seq<Entry<V>>)
    requires Distinct(es) && e.key !in RecordOf(es)
    ensures Distinct([e] + es) && RecordOf([e] + es) == RecordOf(es)[e.key := e.value]
  {
    RecordHas(es);
    assert ([e] + es)[1..] == es;
  }

  /** Object.entries of a dictionary, in some order. */
  method EntriesOf<V>(m: map<JsString, V>) returns (es: seq<Entry<V>>)
    ensures Distinct(es) && RecordOf(es) == m
  {
    es := [];
    var todo := m.Keys;
    while todo != {}
      invariant todo <= m.Keys && Distinct(es)
      invariant RecordOf(es) == map k | k in m && k !in todo :: m[k]
      decreases todo
    {
      var k :| k in todo;
      ConsRecord(Entry(k, m[k]), es);
      es := [Entry(k, m[k])] + es;
      todo := todo - {k};
    }
  }
}
