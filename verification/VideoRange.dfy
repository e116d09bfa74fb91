/** Range headers of the encrypted-video streamer, and the chunks that cover a range. */
module VideoRange {
  import opened Prelude
  import opened JsText
  import opened Decimals

  // ---------- parseRange ----------

  datatype RangeSpec = RangeSpec(start: int, end: int)

  /** What String.prototype.trim removes. */
  predicate IsSpace(u: CodeUnit) {
    9 <= u <= 13 || u == 32 || u == 0xA0 || u == 0x1680 || 0x2000 <= u <= 0x200A || u == 0x2028 || u == 0x2029
    || u == 0x202F || u == 0x205F || u == 0x3000 || u == 0xFEFF
  }

  function TrimStart(s: JsString): JsString {
    if s != [] && IsSpace(s[0]) then TrimStart(s[1..]) else s
  }

  function TrimEnd(s: JsString): JsString {
    if s != [] && IsSpace(s[|s| - 1]) then TrimEnd(s[..|s| - 1]) else s
  }

  function Trim(s: JsString): JsString {
    TrimEnd(TrimStart(s))
  }

  const BYTES: JsString := Ascii("bytes=")
  const DASH: CodeUnit := 45

  function DigitCount(s: JsString): (n: nat)
    ensures n <= |s| && AllDigits(s[..n]) && (n < |s| ==> !IsDigit(s[n]))
  {
    if s == [] || !IsDigit(s[0]) then 0
    else
      var n := DigitCount(s[1..]);
      assert s[..n + 1] == [s[0]] + s[1..][..n];
      n + 1
  }

  /** The two groups of the regular expression, if it matches. */
  function Groups(h: JsString): (g: Option<(JsString, JsString)>)
    ensures g.Some? ==> AllDigits(g.value.0) && AllDigits(g.value.1)
  {
    if !(BYTES <= h) then None
    else
      var t := h[|BYTES|..];
      var n := DigitCount(t);
      if n < |t| && t[n] == DASH && DigitCount(t[n + 1..]) == |t| - n - 1 then
        assert t[n + 1..][..|t| - n - 1] == t[n + 1..];
        Some((t[..n], t[n + 1..]))
      else None
  }

  /** The regular expression matches exactly its own form, and its groups are the digits around the dash. */
  lemma {:induction false} GroupsOf(a: JsString, b: JsString)
    requires AllDigits(a) && AllDigits(b)
    ensures Groups(BYTES + a + [DASH] + b) == Some((a, b))
  {
    var h := BYTES + a + [DASH] + b;
    var t := h[|BYTES|..];
    assert t == a + [DASH] + b && BYTES == h[..|BYTES|];
    CountDigits(a, [DASH] + b);
    assert t == a + ([DASH] + b);
    assert t[|a| + 1..] == b && t[..|a|] == a;
    CountDigits(b, []);
    assert b + [] == b;
  }

  lemma {:induction false} CountDigits(a: JsString, rest: JsString)
    requires AllDigits(a) && (rest != [] ==> !IsDigit(rest[0]))
    ensures DigitCount(a + rest) == |a|
  {
    if a == [] {
      assert a + rest == rest;
    } else {
      assert (a + rest)[1..] == a[1..] + rest;
      CountDigits(a[1..], rest);
    }
  }

  lemma {:induction false} GroupsOnly(h: JsString)
    ensures Groups(h).Some? ==> h == BYTES + Groups(h).value.0 + [DASH] + Groups(h).value.1
  {
    if Groups(h).Some? {
      var t := h[|BYTES|..];
      var n := DigitCount(t);
      assert h == BYTES + t && t == t[..n] + [t[n]] + t[n + 1..];
    }
  }

  /** parseRange */
  function ParseRange(header: Option<JsString>, totalSize: nat): Option<RangeSpec> {
    if header.None? || header.value == [] then None
    else match Groups(Trim(header.value))
         case None => None
         case Some((rawStart, rawEnd)) =>
           if rawStart == [] && rawEnd == [] then None
           else if rawStart == [] then
             var len := Value(rawEnd);
             if len == 0 then None
             else Some(RangeSpec(if totalSize - len < 0 then 0 else totalSize - len, totalSize - 1))
           else
             var start := Value(rawStart);
             if start >= totalSize then None
             else
               var end := if rawEnd == [] || totalSize - 1 < Value(rawEnd) then totalSize - 1 else Value(rawEnd);
               if end < start then None else Some(RangeSpec(start, end))
  }

  /** The byte positions a range names in a file (section 14.1.2 of RFC 9110). */
  datatype Wanted = From(first: nat) | FromTo(first: nat, last: nat) | Suffix(length: nat)

  predicate Names(w: Wanted, totalSize: nat, i: int) {
    && 0 <= i < totalSize
    && match w
       case From(first) => first <= i
       case FromTo(first, last) => first <= i <= last
       case Suffix(length) => totalSize - length <= i
  }

  function StartDigits(w: Wanted): (s: JsString)
    ensures AllDigits(s)
  {
    if w.Suffix? then [] else Decimal(w.first)
  }

  function EndDigits(w: Wanted): (s: JsString)
    ensures AllDigits(s)
  {
    match w
    case From(_) => []
    case FromTo(_, last) => Decimal(last)
    case Suffix(length) => Decimal(length)
  }

  function HeaderOf(w: Wanted): JsString {
    BYTES + StartDigits(w) + [DASH] + EndDigits(w)
  }

  lemma {:induction false} TrimsToItself(h: JsString)
    requires h != [] && !IsSpace(h[0]) && !IsSpace(h[|h| - 1])
    ensures Trim(h) == h
  {
  }

  lemma {:induction false} HeaderGroups(w: Wanted)
    ensures HeaderOf(w) != [] && Groups(Trim(HeaderOf(w))) == Some((StartDigits(w), EndDigits(w)))
  {
    var h, b := HeaderOf(w), EndDigits(w);
    GroupsOf(StartDigits(w), b);
    assert h[0] == BYTES[0] == 98 && h[|h| - 1] == (if b == [] then DASH else b[|b| - 1]);
    TrimsToItself(h);
  }

  /** The bytes a range names, as an interval. */
  lemma {:induction false} NamedInterval(w: Wanted, totalSize: nat)
    requires totalSize > 0
    ensures var low := if w.Suffix? then Max(0, totalSize - w.length) else w.first;
            var high := if w.FromTo? then Min(w.last, totalSize - 1) else totalSize - 1;
            forall i :: Names(w, totalSize, i) <==> low <= i <= high
  {
  }

  function Max(a: int, b: int): int { if a < b then b else a }

  /**
   * On a file that is not empty, a well-formed header is accepted exactly when it names some byte of it, and the range
   * given back holds exactly the bytes it names.
   */
  lemma {:induction false} ParsedAsNamed(w: Wanted, totalSize: nat)
    requires totalSize > 0
    ensures ParseRange(Some(HeaderOf(w)), totalSize).Some? <==> exists i :: Names(w, totalSize, i)
    ensures ParseRange(Some(HeaderOf(w)), totalSize).Some? ==>
              var r := ParseRange(Some(HeaderOf(w)), totalSize).value;
              0 <= r.start <= r.end < totalSize && forall i :: Names(w, totalSize, i) <==> r.start <= i <= r.end
  {
    HeaderGroups(w);
    NamedInterval(w, totalSize);
    var parsed := ParseRange(Some(HeaderOf(w)), totalSize);
    var low := if w.Suffix? then Max(0, totalSize - w.length) else w.first;
    var high := if w.FromTo? then Min(w.last, totalSize - 1) else totalSize - 1;
    assert parsed == if low <= high then Some(RangeSpec(low, high)) else None;
    assert low <= high ==> Names(w, totalSize, low);
  }

  /** Every accepted header is one of those forms with spaces around it, and names bytes of a file that is not empty. */
  lemma {:induction false} AcceptedIsInside(header: Option<JsString>, totalSize: nat)
    requires totalSize > 0 && ParseRange(header, totalSize).Some?
    ensures 0 <= ParseRange(header, totalSize).value.start <= ParseRange(header, totalSize).value.end < totalSize
    ensures var h := Trim(header.value); exists a, b :: AllDigits(a) && AllDigits(b) && h == BYTES + a + [DASH] + b
  {
    var h := Trim(header.value);
    GroupsOnly(h);
    var a, b := Groups(h).value.0, Groups(h).value.1;
    assert AllDigits(a) && AllDigits(b) && h == BYTES + a + [DASH] + b;
  }

  /** An empty file: accepted is exactly a suffix range of a positive length, and what it gives has no byte. */
  lemma {:induction false} EmptyFileRange(header: Option<JsString>)
    ensures ParseRange(header, 0).Some? <==>
            header.Some? && exists b :: AllDigits(b) && b != [] && Value(b) > 0 && Trim(header.value) == BYTES + [DASH] + b
    ensures ParseRange(header, 0).Some? ==> ParseRange(header, 0) == Some(RangeSpec(0, -1))
  {
    if ParseRange(header, 0).Some? {
      var h := Trim(header.value);
      GroupsOnly(h);
      assert h == BYTES + [DASH] + Groups(h).value.1;
    }
    if header.Some? && exists b :: AllDigits(b) && b != [] && Value(b) > 0 && Trim(header.value) == BYTES + [DASH] + b {
      var b :| AllDigits(b) && b != [] && Value(b) > 0 && Trim(header.value) == BYTES + [DASH] + b;
      GroupsOf([], b);
      assert BYTES + [] + [DASH] + b == Trim(header.value);
    }
  }

  // ---------- planChunks ----------

  datatype ChunkPlan = ChunkPlan(firstChunk: int, lastChunk: int, offsetInFirst: int, served: RangeSpec)

  function Min(a: int, b: int): int { if b < a then b else a }

  function PlanChunks(range: RangeSpec, chunkSize: nat, totalSize: nat, maxChunks: nat): ChunkPlan
    requires chunkSize > 0
  {
    var firstChunk := range.start / chunkSize;
    var wantedLast := Min(range.end, totalSize - 1) / chunkSize;
    var lastChunk := Min(wantedLast, firstChunk + maxChunks - 1);
    var servedEnd := Min(Min(range.end, (lastChunk + 1) * chunkSize - 1), totalSize - 1);
    ChunkPlan(firstChunk, lastChunk, range.start - firstChunk * chunkSize, RangeSpec(range.start, servedEnd))
  }

  lemma {:induction false} ChunkBounds(i: int, chunkSize: nat)
    requires chunkSize > 0
    ensures (i / chunkSize) * chunkSize <= i < (i / chunkSize + 1) * chunkSize
  {
    assert i == (i / chunkSize) * chunkSize + i % chunkSize;
    assert (i / chunkSize + 1) * chunkSize == (i / chunkSize) * chunkSize + chunkSize;
  }

  lemma {:induction false} ChunkMonotone(i: int, j: int, chunkSize: nat)
    requires chunkSize > 0 && i <= j
    ensures i / chunkSize <= j / chunkSize
  {
    ChunkBounds(i, chunkSize);
    ChunkBounds(j, chunkSize);
    if i / chunkSize > j / chunkSize {
      Scaled(j / chunkSize + 1, i / chunkSize, chunkSize);
    }
  }

  lemma {:induction false} Scaled(a: int, b: int, n: nat)
    requires a <= b
    ensures a * n <= b * n
  {
    assert b * n - a * n == (b - a) * n;
  }

  lemma {:induction false} ChunkIs(i: int, k: int, chunkSize: nat)
    requires chunkSize > 0 && k * chunkSize <= i < (k + 1) * chunkSize
    ensures i / chunkSize == k
  {
    ChunkBounds(i, chunkSize);
    var q := i / chunkSize;
    if q < k { Scaled(q + 1, k, chunkSize); }
    if q > k { Scaled(k + 1, q, chunkSize); }
  }

  /**
   * The part of a range that is served starts where it does, ends inside it, takes in at most the capped number of
   * chunks, and ends early only at the end of the last of exactly that many.
   */
  lemma {:induction false} PlanServes(range: RangeSpec, chunkSize: nat, totalSize: nat, maxChunks: nat)
    requires chunkSize > 0 && maxChunks > 0 && 0 <= range.start <= range.end < totalSize
    ensures var p := PlanChunks(range, chunkSize, totalSize, maxChunks);
            && p.served.start == range.start <= p.served.end <= range.end
            && p.firstChunk == p.served.start / chunkSize && p.lastChunk == p.served.end / chunkSize
            && 0 <= p.offsetInFirst < chunkSize
            && p.lastChunk - p.firstChunk + 1 <= maxChunks
            && (p.served.end < range.end ==> p.lastChunk - p.firstChunk + 1 == maxChunks && p.served.end + 1 == (p.lastChunk + 1) * chunkSize)
  {
    var p := PlanChunks(range, chunkSize, totalSize, maxChunks);
    var first, wanted := range.start / chunkSize, range.end / chunkSize;
    ChunkMonotone(range.start, range.end, chunkSize);
    ChunkBounds(range.start, chunkSize);
    ChunkBounds(range.end, chunkSize);
    Scaled(first + 1, p.lastChunk + 1, chunkSize);
    if p.lastChunk == wanted {
      assert p.served.end == range.end;
    } else {
      Scaled(p.lastChunk + 1, wanted, chunkSize);
      assert p.served.end == (p.lastChunk + 1) * chunkSize - 1;
      assert p.lastChunk * chunkSize <= p.served.end by { assert (p.lastChunk + 1) * chunkSize == p.lastChunk * chunkSize + chunkSize; }
      ChunkIs(p.served.end, p.lastChunk, chunkSize);
    }
  }
}
