/** JavaScript strings (sequences of UTF-16 code units), their order, and TextEncoder. */
module JsText {
  type CodeUnit = u: int | 0 <= u < 0x10000
  type JsString = seq<CodeUnit>
  type Byte = b: int | 0 <= b < 0x100
  type Bytes = seq<Byte>

  /** A string literal of the source, every one ASCII: the string and its UTF-8 bytes alike. */
  function Ascii(s: string): (r: Bytes)
    ensures |r| == |s|
  {
    seq(|s|, i requires 0 <= i < |s| => if s[i] < 128 as char then s[i] as int else 0)
  }

  predicate IsAscii(s: JsString) {
    forall i :: 0 <= i < |s| ==> s[i] < 0x80
  }

  // ---------- the order of `<` on strings ----------

  predicate LexLess(a: seq<int>, b: seq<int>) {
    if b == [] then false
    else if a == [] then true
    else a[0] < b[0] || (a[0] == b[0] && LexLess(a[1..], b[1..]))
  }

  lemma {:induction false} LexTotal(a: seq<int>, b: seq<int>)
    ensures !(LexLess(a, b) && LexLess(b, a))
    ensures a != b ==> LexLess(a, b) || LexLess(b, a)
    ensures !LexLess(a, a)
  {
    if a != [] {
      LexTotal(a[1..], if b == [] then [] else b[1..]);
      if b != [] && a[0] == b[0] && a != b {
        assert a == [a[0]] + a[1..] && b == [b[0]] + b[1..];
      }
    }
  }

  lemma {:induction false} LexTransitive(a: seq<int>, b: seq<int>, c: seq<int>)
    requires LexLess(a, b) && LexLess(b, c)
    ensures LexLess(a, c)
  {
    if a != [] && a[0] == b[0] && b[0] == c[0] {
      LexTransitive(a[1..], b[1..], c[1..]);
    }
  }

  /** Where two strings in order first part: at a smaller unit, or at the end of the first. */
  lemma {:induction false} LexParting(a: seq<int>, b: seq<int>) returns (i: nat)
    requires LexLess(a, b)
    ensures i <= |a| && i < |b| && a[..i] == b[..i]
    ensures i == |a| || a[i] < b[i]
  {
    if a == [] || a[0] < b[0] {
      i := 0;
    } else {
      var j := LexParting(a[1..], b[1..]);
      i := j + 1;
      assert a[..i] == [a[0]] + a[1..][..j];
      assert b[..i] == [b[0]] + b[1..][..j];
    }
  }

  // ---------- Array.prototype.sort by a string key ----------

  function Insert<T>(x: T, xs: seq<T>, key: T -> JsString): seq<T> {
    if xs == [] || LexLess(key(x), key(xs[0])) then [x] + xs
    else [xs[0]] + Insert(x, xs[1..], key)
  }

  function SortBy<T>(xs: seq<T>, key: T -> JsString): seq<T> {
    if xs == [] then [] else Insert(xs[0], SortBy(xs[1..], key), key)
  }

  ghost predicate Ascending<T>(xs: seq<T>, key: T -> JsString) {
    forall i, j :: 0 <= i < j < |xs| ==> LexLess(key(xs[i]), key(xs[j]))
  }

  ghost predicate DistinctKeys<T>(xs: seq<T>, key: T -> JsString) {
    forall i, j :: 0 <= i < j < |xs| ==> key(xs[i]) != key(xs[j])
  }

  lemma {:induction false} SortPermutes<T>(xs: seq<T>, key: T -> JsString)
    ensures multiset(SortBy(xs, key)) == multiset(xs)
  {
    if xs != [] {
      SortPermutes(xs[1..], key);
      InsertPermutes(xs[0], SortBy(xs[1..], key), key);
      assert xs == [xs[0]] + xs[1..];
    }
  }

  lemma {:induction false} InsertPermutes<T>(x: T, xs: seq<T>, key: T -> JsString)
    ensures multiset(Insert(x, xs, key)) == multiset([x]) + multiset(xs)
  {
    if xs != [] {
      InsertPermutes(x, xs[1..], key);
      assert xs == [xs[0]] + xs[1..];
    }
  }

  lemma {:induction false} InsertSorts<T>(x: T, xs: seq<T>, key: T -> JsString)
    requires Ascending(xs, key)
    requires forall i :: 0 <= i < |xs| ==> key(xs[i]) != key(x)
    ensures Ascending(Insert(x, xs, key), key)
  {
    if xs == [] {
    } else if LexLess(key(x), key(xs[0])) {
      forall j | 0 <= j < |xs|
        ensures LexLess(key(x), key(xs[j]))
      {
        if j > 0 {
          LexTransitive(key(x), key(xs[0]), key(xs[j]));
        }
      }
    } else {
      var rest := Insert(x, xs[1..], key);
      InsertSorts(x, xs[1..], key);
      InsertPermutes(x, xs[1..], key);
      LexTotal(key(x), key(xs[0]));
      forall j | 0 <= j < |rest|
        ensures LexLess(key(xs[0]), key(rest[j]))
      {
        assert rest[j] in multiset(rest);
      }
    }
  }

  lemma {:induction false} SortSorts<T>(xs: seq<T>, key: T -> JsString)
    requires DistinctKeys(xs, key)
    ensures Ascending(SortBy(xs, key), key)
    ensures multiset(SortBy(xs, key)) == multiset(xs)
    ensures |SortBy(xs, key)| == |xs|
  {
    SortPermutes(xs, key);
    assert |multiset(SortBy(xs, key))| == |multiset(xs)|;
    if xs != [] {
      var rest := SortBy(xs[1..], key);
      SortSorts(xs[1..], key);
      forall i | 0 <= i < |rest|
        ensures key(rest[i]) != key(xs[0])
      {
        assert rest[i] in multiset(rest);
        var k :| 0 <= k < |xs[1..]| && xs[1..][k] == rest[i];
        assert xs[k + 1] == rest[i];
      }
      InsertSorts(xs[0], rest, key);
    }
  }

  /** A list with the elements of a set, each once, repeats nothing. */
  lemma {:induction false} OnceEach<T>(xs: seq<T>, s: set<T>)
    requires multiset(xs) == multiset(s)
    ensures forall i, j :: 0 <= i < j < |xs| ==> xs[i] != xs[j]
    ensures forall x :: x in xs <==> x in s
  {
    forall i, j | 0 <= i < j < |xs|
      ensures xs[i] != xs[j]
    {
      assert xs == xs[..j] + xs[j..];
      assert xs[..j][i] in multiset(xs[..j]) && xs[j..][0] in multiset(xs[j..]);
      assert multiset(xs)[xs[i]] == multiset(xs[..j])[xs[i]] + multiset(xs[j..])[xs[i]];
      assert multiset(s)[xs[i]] <= 1;
    }
    forall x
      ensures x in xs <==> x in s
    {
      assert x in xs <==> x in multiset(xs);
    }
  }

  /** An ascending list is determined by its elements: sorting forgets the order of arrival. */
  lemma {:induction false} AscendingUnique<T>(xs: seq<T>, ys: seq<T>, key: T -> JsString)
    requires Ascending(xs, key) && Ascending(ys, key)
    requires forall x :: x in xs <==> x in ys
    ensures xs == ys
  {
    assert ys != [] ==> ys[0] in ys;
    if xs != [] {
      assert xs[0] in ys && ys[0] in xs;
      var j :| 0 <= j < |ys| && ys[j] == xs[0];
      var i :| 0 <= i < |xs| && xs[i] == ys[0];
      LexTotal(key(xs[0]), key(ys[0]));
      assert i == 0 || j == 0;
      assert xs[0] == ys[0];
      forall x
        ensures x in xs[1..] <==> x in ys[1..]
      {
        TailMembers(xs, key, x);
        TailMembers(ys, key, x);
      }
      AscendingUnique(xs[1..], ys[1..], key);
      assert xs == [xs[0]] + xs[1..] && ys == [ys[0]] + ys[1..];
    }
  }

  lemma {:induction false} TailMembers<T>(xs: seq<T>, key: T -> JsString, x: T)
    requires Ascending(xs, key) && xs != []
    ensures x in xs[1..] <==> x in xs && x != xs[0]
  {
    LexTotal(key(xs[0]), key(xs[0]));
    assert forall k :: 0 <= k < |xs[1..]| ==> xs[1..][k] == xs[k + 1];
    assert forall k :: 0 < k < |xs| ==> xs[k] == xs[1..][k - 1];
  }

  // ---------- TextEncoder ----------

  predicate IsHigh(u: CodeUnit) { 0xD800 <= u < 0xDC00 }

  predicate IsLow(u: CodeUnit) { 0xDC00 <= u < 0xE000 }

  predicate StartsPair(s: JsString) {
    |s| >= 2 && IsHigh(s[0]) && IsLow(s[1])
  }

  function Scalar(hi: CodeUnit, lo: CodeUnit): int
    requires IsHigh(hi) && IsLow(lo)
  {
    0x10000 + (hi - 0xD800) * 0x400 + (lo - 0xDC00)
  }

  function EncodeScalar(c: int): (r: Bytes)
    requires 0 <= c < 0x110000
    ensures |r| > 0
  {
    if c < 0x80 then [c]
    else if c < 0x800 then [0xC0 + c / 0x40, 0x80 + c % 0x40]
    else if c < 0x10000 then [0xE0 + c / 0x40 / 0x40, 0x80 + c / 0x40 % 0x40, 0x80 + c % 0x40]
    else [0xF0 + c / 0x40 / 0x40 / 0x40, 0x80 + c / 0x40 / 0x40 % 0x40, 0x80 + c / 0x40 % 0x40, 0x80 + c % 0x40]
  }

  /** UTF-8 of a JavaScript string; an unpaired surrogate becomes U+FFFD. */
  function Utf8(s: JsString): Bytes {
    if s == [] then []
    else if StartsPair(s) then EncodeScalar(Scalar(s[0], s[1])) + Utf8(s[2..])
    else EncodeScalar(if IsHigh(s[0]) || IsLow(s[0]) then 0xFFFD else s[0]) + Utf8(s[1..])
  }

  /** No unpaired surrogate (String.prototype.isWellFormed). */
  predicate WellFormed(s: JsString) {
    s == [] || if StartsPair(s) then WellFormed(s[2..])
    else !IsHigh(s[0]) && !IsLow(s[0]) && WellFormed(s[1..])
  }

  lemma {:induction false} Utf8OfAscii(s: JsString)
    requires IsAscii(s)
    ensures Utf8(s) == s
    ensures WellFormed(s)
  {
    if s != [] {
      Utf8OfAscii(s[1..]);
    }
  }

  lemma {:induction false} EncodeScalarPrefix(c: int, d: int, x: Bytes, y: Bytes)
    requires 0 <= c < 0x110000 && 0 <= d < 0x110000
    requires EncodeScalar(c) + x == EncodeScalar(d) + y
    ensures c == d && x == y
  {
    var p, q := EncodeScalar(c), EncodeScalar(d);
    assert (p + x)[0] == p[0] && (q + y)[0] == q[0];
    assert |p| == |q|;
    assert forall i :: 0 <= i < |p| ==> p[i] == (p + x)[i] && q[i] == (q + y)[i];
    assert p == q;
    assert x == (p + x)[|p|..] && y == (q + y)[|q|..];
    ScalarDecodes(c);
    ScalarDecodes(d);
  }

  function DecodeScalar(r: seq<int>): int
    requires 1 <= |r| <= 4
  {
    if |r| == 1 then r[0]
    else if |r| == 2 then (r[0] - 0xC0) * 0x40 + (r[1] - 0x80)
    else if |r| == 3 then ((r[0] - 0xE0) * 0x40 + (r[1] - 0x80)) * 0x40 + (r[2] - 0x80)
    else (((r[0] - 0xF0) * 0x40 + (r[1] - 0x80)) * 0x40 + (r[2] - 0x80)) * 0x40 + (r[3] - 0x80)
  }

  lemma {:induction false} ScalarDecodes(c: int)
    requires 0 <= c < 0x110000
    ensures |EncodeScalar(c)| <= 4 && DecodeScalar(EncodeScalar(c)) == c
  {
    var q := c / 0x40;
    var p := q / 0x40;
    assert c == q * 0x40 + c % 0x40 && q == p * 0x40 + q % 0x40 && p == p / 0x40 * 0x40 + p % 0x40;
  }

  // ---------- what TextEncoder loses ----------

  predicate IsSurrogate(u: CodeUnit) { IsHigh(u) || IsLow(u) }

  /** The first code point, an unpaired surrogate read as U+FFFD. */
  function FirstScalar(s: JsString): (c: int)
    requires s != []
    ensures 0 <= c < 0x110000
  {
    if StartsPair(s) then Scalar(s[0], s[1]) else if IsSurrogate(s[0]) then 0xFFFD else s[0]
  }

  function AfterFirst(s: JsString): JsString
    requires s != []
  {
    if StartsPair(s) then s[2..] else s[1..]
  }

  /** The code units of a code point. */
  function Units(c: int): JsString
    requires 0 <= c < 0x110000
  {
    if c < 0x10000 then [c] else [0xD800 + (c - 0x10000) / 0x400, 0xDC00 + (c - 0x10000) % 0x400]
  }

  /** String.prototype.toWellFormed. */
  function ToWellFormed(s: JsString): JsString {
    if s == [] then [] else Units(FirstScalar(s)) + ToWellFormed(AfterFirst(s))
  }

  lemma {:induction false} Utf8First(s: JsString)
    requires s != []
    ensures Utf8(s) == EncodeScalar(FirstScalar(s)) + Utf8(AfterFirst(s)) && Utf8(s) != []
  {
  }

  lemma {:induction false} UnitsOfPair(hi: CodeUnit, lo: CodeUnit)
    requires IsHigh(hi) && IsLow(lo)
    ensures Units(Scalar(hi, lo)) == [hi, lo]
  {
  }

  lemma {:induction false} UnitsOfFirst(s: JsString)
    requires s != []
    ensures StartsPair(s) ==> Units(FirstScalar(s)) == [s[0], s[1]]
    ensures !StartsPair(s) ==> Units(FirstScalar(s)) == [if IsSurrogate(s[0]) then 0xFFFD else s[0]]
  {
    if StartsPair(s) {
      UnitsOfPair(s[0], s[1]);
    }
  }

  /** The first code point of a string put together from one and the rest. */
  lemma {:induction false} FirstOfUnits(s: JsString, rest: JsString)
    requires s != []
    ensures var r := Units(FirstScalar(s)) + rest;
            r != [] && FirstScalar(r) == FirstScalar(s) && AfterFirst(r) == rest
            && (!StartsPair(r) ==> !IsSurrogate(r[0]))
  {
    UnitsOfFirst(s);
    var r := Units(FirstScalar(s)) + rest;
    assert StartsPair(s) ==> StartsPair(r) && r[0] == s[0] && r[1] == s[1] && r[2..] == rest;
    assert !StartsPair(s) ==> !IsSurrogate(r[0]) && r[1..] == rest;
  }

  lemma {:induction false} RepairKeepsUtf8(s: JsString)
    ensures Utf8(ToWellFormed(s)) == Utf8(s) && WellFormed(ToWellFormed(s))
  {
    if s != [] {
      RepairKeepsUtf8(AfterFirst(s));
      FirstOfUnits(s, ToWellFormed(AfterFirst(s)));
      Utf8First(s);
      Utf8First(ToWellFormed(s));
    }
  }

  lemma {:induction false} RepairsIllFormed(s: JsString)
    ensures WellFormed(s) ==> ToWellFormed(s) == s
  {
    if s != [] {
      RepairsIllFormed(AfterFirst(s));
      UnitsOfFirst(s);
      assert s == (if StartsPair(s) then [s[0], s[1]] else [s[0]]) + AfterFirst(s);
    }
  }

  lemma {:induction false} RepairedAscii(s: JsString)
    requires IsAscii(ToWellFormed(s))
    ensures ToWellFormed(s) == s
  {
    if s != [] {
      var head, rest := Units(FirstScalar(s)), ToWellFormed(AfterFirst(s));
      UnitsOfFirst(s);
      assert forall i :: 0 <= i < |rest| ==> rest[i] == ToWellFormed(s)[|head| + i];
      assert head[0] == ToWellFormed(s)[0] < 0x80;
      RepairedAscii(AfterFirst(s));
    }
  }

  lemma {:induction false} Utf8DeterminesRepaired(a: JsString, b: JsString)
    requires Utf8(a) == Utf8(b)
    ensures ToWellFormed(a) == ToWellFormed(b)
  {
    if a != [] { Utf8First(a); }
    if b != [] { Utf8First(b); }
    if a != [] && b != [] {
      EncodeScalarPrefix(FirstScalar(a), FirstScalar(b), Utf8(AfterFirst(a)), Utf8(AfterFirst(b)));
      Utf8DeterminesRepaired(AfterFirst(a), AfterFirst(b));
    }
  }

  /** What TextEncoder loses: two strings encode alike exactly when they are one once unpaired surrogates are U+FFFD. */
  lemma {:induction false} Utf8SameIff(a: JsString, b: JsString)
    ensures Utf8(a) == Utf8(b) <==> ToWellFormed(a) == ToWellFormed(b)
  {
    if Utf8(a) == Utf8(b) {
      Utf8DeterminesRepaired(a, b);
    } else {
      RepairKeepsUtf8(a);
      RepairKeepsUtf8(b);
    }
  }

  /** TextEncoder loses nothing of a well-formed string. */
  lemma {:induction false} Utf8Injective(a: JsString, b: JsString)
    requires WellFormed(a) && WellFormed(b) && Utf8(a) == Utf8(b)
    ensures a == b
  {
    Utf8DeterminesRepaired(a, b);
    RepairsIllFormed(a);
    RepairsIllFormed(b);
  }

  /** Two of the examples of section 7 of RFC 3629: one, three and two octets, and four for a pair. */
  lemma {:induction false} Utf8Examples()
    ensures Utf8([0x41, 0x2262, 0x0391, 0x2E]) == [0x41, 0xE2, 0x89, 0xA2, 0xCE, 0x91, 0x2E]
    ensures Utf8([0xD84C, 0xDFB4]) == [0xF0, 0xA3, 0x8E, 0xB4]
  {
    Utf8Unit(0x2E, []);
    Utf8Unit(0x0391, [0x2E]);
    Utf8Unit(0x2262, [0x0391, 0x2E]);
    Utf8Unit(0x41, [0x2262, 0x0391, 0x2E]);
    PairExample();
  }

  lemma {:induction false} Utf8Unit(u: CodeUnit, rest: JsString)
    requires !IsSurrogate(u)
    ensures Utf8([u] + rest) == EncodeScalar(u) + Utf8(rest)
  {
    assert ([u] + rest)[1..] == rest;
  }

  lemma {:induction false} PairExample()
    ensures Utf8([0xD84C, 0xDFB4]) == [0xF0, 0xA3, 0x8E, 0xB4]
  {
    var b: JsString := [0xD84C, 0xDFB4];
    assert b[2..] == [] && Scalar(b[0], b[1]) == 0x233B4;
  }
}
