/** Base64 texts of a list of binary values, one after the other with nothing between: what the joined text tells of the list. */
module Base64Lists {
  import opened Prelude
  import opened JsText
  import opened Base64

  function Joined(bs: seq<Bytes>): JsString {
    if bs == [] then [] else ToBase64(bs[0]) + Joined(bs[1..])
  }

  /** Bytes before a list of groups. Without a padding after them they run on into the first group. */
  function Before(b: Bytes, groups: seq<Bytes>): seq<Bytes> {
    if |b| % 3 != 0 then [b] + groups
    else if b == [] then groups
    else if groups == [] then [b]
    else [b + groups[0]] + groups[1..]
  }

  /** The list with every element of whole triples run on into the next one. */
  function Merged(bs: seq<Bytes>): seq<Bytes> {
    if bs == [] then [] else Before(bs[0], Merged(bs[1..]))
  }

  // ---------- reading the groups back ----------

  /** The bytes of one quadruple. */
  function QuadBytes(q: JsString): (b: Bytes)
    requires |q| == 4
  {
    if q[2] == PAD then DecodeBody(q[..2]) else if q[3] == PAD then DecodeBody(q[..3]) else DecodeBody(q)
  }

  function ReadGroups(s: JsString): seq<Bytes> {
    if |s| < 4 then [] else Before(QuadBytes(s[..4]), ReadGroups(s[4..]))
  }

  lemma {:induction false} BeforeJoins(x: Bytes, y: Bytes, groups: seq<Bytes>)
    requires |x| == 3
    ensures Before(x, Before(y, groups)) == Before(x + y, groups)
  {
    assert |x + y| == |y| + 3 && (x + y == x || y != []);
    if y == [] {
      assert x + y == x;
    } else if |y| % 3 == 0 && groups != [] {
      assert x + (y + groups[0]) == (x + y) + groups[0];
      assert ([y + groups[0]] + groups[1..])[1..] == groups[1..];
    } else if |y| % 3 != 0 {
      assert ([y] + groups)[1..] == groups;
    }
  }

  lemma {:induction false} FirstQuad(q: JsString, s: JsString)
    requires |q| == 4
    ensures ReadGroups(q + s) == Before(QuadBytes(q), ReadGroups(s))
  {
    assert (q + s)[..4] == q && (q + s)[4..] == s;
  }

  lemma {:induction false} PaddedQuad(b: Bytes)
    requires |b| == 1 || |b| == 2
    ensures |ToBase64(b)| == 4 && QuadBytes(ToBase64(b)) == b
  {
    BodyDecodes(b);
    BodyDigits(b);
    if |b| == 1 {
      assert ToBase64(b)[..2] == Body(b);
    } else {
      assert ToBase64(b)[..3] == Body(b) && IsDigitAt(b, 2);
    }
  }

  predicate IsDigitAt(b: Bytes, i: nat) {
    i < |Body(b)| && Body(b)[i] != PAD
  }

  lemma {:induction false} WholeQuad(x: Byte, y: Byte, z: Byte)
    ensures QuadBytes(Quad(x, y, z)) == [x, y, z]
  {
    QuadDecodes(x, y, z, []);
    assert Quad(x, y, z) + [] == Quad(x, y, z) && DecodeBody([]) == [] && [x, y, z] + [] == [x, y, z];
  }

  lemma {:induction false} ReadsElement(b: Bytes, s: JsString)
    ensures ReadGroups(ToBase64(b) + s) == Before(b, ReadGroups(s))
    decreases |b|
  {
    if b == [] {
      assert ToBase64(b) + s == s;
    } else if |b| < 3 {
      PaddedQuad(b);
      FirstQuad(ToBase64(b), s);
    } else {
      ReadsElement(b[3..], s);
      ReadsTriple(b[..3], b[3..], s);
      assert b[..3] + b[3..] == b;
    }
  }

  lemma {:induction false} TripleText(x: Bytes, y: Bytes)
    requires |x| == 3
    ensures ToBase64(x + y) == Quad(x[0], x[1], x[2]) + ToBase64(y)
  {
    assert (x + y)[3..] == y && (x + y)[0] == x[0] && (x + y)[1] == x[1] && (x + y)[2] == x[2];
  }

  lemma {:induction false} TextsAssociate(x: JsString, y: JsString, z: JsString)
    ensures x + (y + z) == (x + y) + z
  {
  }

  lemma {:induction false} ReadsTriple(x: Bytes, y: Bytes, s: JsString)
    requires |x| == 3 && ReadGroups(ToBase64(y) + s) == Before(y, ReadGroups(s))
    ensures ReadGroups(ToBase64(x + y) + s) == Before(x + y, ReadGroups(s))
  {
    TripleText(x, y);
    TextsAssociate(Quad(x[0], x[1], x[2]), ToBase64(y), s);
    FirstQuad(Quad(x[0], x[1], x[2]), ToBase64(y) + s);
    WholeQuad(x[0], x[1], x[2]);
    assert [x[0], x[1], x[2]] == x;
    BeforeJoins(x, y, ReadGroups(s));
  }

  lemma {:induction false} ReadsMerged(bs: seq<Bytes>)
    ensures ReadGroups(Joined(bs)) == Merged(bs)
  {
    if bs != [] {
      ReadsMerged(bs[1..]);
      ReadsElement(bs[0], Joined(bs[1..]));
    }
  }

  // ---------- and writing them again ----------

  lemma {:induction false} TripleRunsOn(x: Bytes, rest: Bytes, b: Bytes)
    requires |x| == 3 && ToBase64(rest + b) == ToBase64(rest) + ToBase64(b)
    ensures ToBase64((x + rest) + b) == ToBase64(x + rest) + ToBase64(b)
  {
    assert (x + rest) + b == x + (rest + b);
    TripleText(x, rest);
    TripleText(x, rest + b);
    TextsAssociate(Quad(x[0], x[1], x[2]), ToBase64(rest), ToBase64(b));
  }

  lemma {:induction false} TextRunsOn(a: Bytes, b: Bytes)
    requires |a| % 3 == 0
    ensures ToBase64(a + b) == ToBase64(a) + ToBase64(b)
    decreases |a|
  {
    if a == [] {
      assert a + b == b;
    } else {
      var x, rest := a[..3], a[3..];
      TextRunsOn(rest, b);
      TripleRunsOn(x, rest, b);
      assert a == x + rest;
    }
  }

  lemma {:induction false} JoinedBefore(b: Bytes, groups: seq<Bytes>)
    ensures Joined(Before(b, groups)) == ToBase64(b) + Joined(groups)
  {
    if |b| % 3 != 0 {
      assert ([b] + groups)[1..] == groups;
    } else if b != [] {
      if groups == [] {
        assert [b][1..] == [];
      } else {
        TextRunsOn(b, groups[0]);
        assert ([b + groups[0]] + groups[1..])[1..] == groups[1..];
      }
    }
  }

  lemma {:induction false} JoinedMerged(bs: seq<Bytes>)
    ensures Joined(Merged(bs)) == Joined(bs)
  {
    if bs != [] {
      JoinedMerged(bs[1..]);
      JoinedBefore(bs[0], Merged(bs[1..]));
    }
  }

  /** Two lists have one text exactly when they are one once every element of whole triples runs on into the next. */
  lemma {:induction false} JoinedSameIff(a: seq<Bytes>, b: seq<Bytes>)
    ensures Joined(a) == Joined(b) <==> Merged(a) == Merged(b)
  {
    ReadsMerged(a);
    ReadsMerged(b);
    JoinedMerged(a);
    JoinedMerged(b);
  }

  /** No element is of whole triples, as no 64-byte hash is. */
  predicate Padded(bs: seq<Bytes>) {
    forall i :: 0 <= i < |bs| ==> |bs[i]| % 3 != 0
  }

  lemma {:induction false} PaddedStays(bs: seq<Bytes>)
    requires Padded(bs)
    ensures Merged(bs) == bs
  {
    if bs != [] {
      PaddedStays(bs[1..]);
    }
  }

  /** Lists of such elements are determined by their joined text. */
  lemma {:induction false} JoinedDeterminesPadded(a: seq<Bytes>, b: seq<Bytes>)
    requires Padded(a) && Padded(b)
    ensures Joined(a) == Joined(b) <==> a == b
  {
    JoinedSameIff(a, b);
    PaddedStays(a);
    PaddedStays(b);
  }

  /** Others are not: an element of whole triples and the next one read as one element. */
  lemma {:induction false} BoundaryLost(a: Bytes, b: Bytes)
    requires |a| % 3 == 0 && a != []
    ensures Joined([a, b]) == Joined([a + b]) && [a, b] != [a + b]
  {
    TextRunsOn(a, b);
    assert [a, b][1..] == [b] && [b][1..] == [] && [a + b][1..] == [];
    assert Joined([b]) == ToBase64(b);
  }
}
