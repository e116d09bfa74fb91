/** What encoded content can hold inside a quote, at any depth, whatever parts it was encoded from. */
module ContentSafety {
  import opened Prelude
  import opened JsText
  import opened ContentParts
  import opened ContentCodec
  import opened ContentRoundTrip

  const REPEATABLE: set<JsString> := {QUOTE, FILE, IMAGE, VIDEO, CHECKPOINT}

  /** A snapshot on the wire: text, a repeatable element, or an array of them; its quotes' snapshots likewise. */
  predicate OnlyRepeatable(j: Json)
    decreases j
  {
    match j
    case JStr(_) => true
    case JArr(items) => forall i :: 0 <= i < |items| ==> OnlyRepeatable(items[i])
    case JObj(fields) => |fields| == 1 && forall t :: t in fields ==> t in REPEATABLE && (t == QUOTE ==> QuoteIsSafe(fields[t]))
    case _ => false
  }

  predicate QuoteIsSafe(q: Json)
    decreases q
  {
    q.JArr? && |q.items| >= 4 && OnlyRepeatable(q.items[3])
  }

  /** Every quote of a message carries a snapshot of that sort. */
  predicate SafeContent(j: Json) {
    match j
    case JArr(items) => forall i :: 0 <= i < |items| ==> SafeElement(items[i])
    case _ => SafeElement(j)
  }

  predicate SafeElement(j: Json) {
    j.JObj? ==> forall t :: t in j.fields && t == QUOTE ==> QuoteIsSafe(j.fields[t])
  }

  lemma {:induction false} SnapshotIsRepeatable(parts: seq<Part>)
    requires EncodeValue(QuoteSnapshot(parts)).Some?
    ensures OnlyRepeatable(EncodeValue(QuoteSnapshot(parts)).value)
    decreases HeightOf(parts), 2
  {
    var snapshot := QuoteSnapshot(parts);
    SnapshotHeight(parts);
    if |snapshot| == 1 {
      assert snapshot[0] in snapshot;
      CopiedIsRepeatable(snapshot[0]);
    } else {
      CopiedAreRepeatable(snapshot);
    }
  }

  lemma {:induction false} CopiedAreRepeatable(parts: seq<Part>)
    requires (forall p :: p in parts ==> CopiedInQuotes(p)) && EncodeAll(parts).Some?
    ensures forall i :: 0 <= i < |parts| ==> OnlyRepeatable(EncodeAll(parts).value[i])
    decreases HeightOf(parts), 1, |parts|
  {
    if parts != [] {
      assert parts[0] in parts;
      CopiedIsRepeatable(parts[0]);
      CopiedAreRepeatable(parts[1..]);
      var items := EncodeAll(parts).value;
      assert items == [items[0]] + EncodeAll(parts[1..]).value;
    }
  }

  lemma {:induction false} CopiedIsRepeatable(p: Part)
    requires CopiedInQuotes(p) && EncodePart(p).Some?
    ensures OnlyRepeatable(EncodePart(p).value)
    decreases Height(p), 0
  {
    TypeNames();
    if p.Quote? {
      SnapshotIsRepeatable(p.snapshot);
      var q := EncodePart(p).value.fields[QUOTE].items;
      assert q[3] == EncodeValue(QuoteSnapshot(p.snapshot)).value;
    }
  }

  /** A part of a type no build decodes as unknown, though one could be put together: it is written as it is. */
  predicate FalseQuote(p: Part) {
    p.Unknown? && p.typeName == QUOTE && !QuoteIsSafe(p.value)
  }

  lemma {:induction false} ElementIsSafe(p: Part)
    requires EncodePart(p).Some?
    ensures SafeElement(EncodePart(p).value) <==> !FalseQuote(p)
    ensures !EncodePart(p).value.JArr?
  {
    TypeNames();
    if p.Quote? {
      CopiedIsRepeatable(p);
    }
  }

  /** No encoded message puts anything else inside a quote: no share, key, proof, photo, inline picture or unknown type,
      unless it was itself put together from an unknown part that passes for a quote. */
  lemma {:induction false} ContentIsSafe(parts: seq<Part>)
    requires EncodeContent(parts).Some?
    ensures SafeContent(EncodeContent(parts).value) <==> forall p :: p in parts ==> !FalseQuote(p)
  {
    if |parts| == 1 {
      ElementIsSafe(parts[0]);
      assert forall p :: p in parts <==> p == parts[0];
    } else if parts != [] {
      ElementsAreSafe(parts);
    }
  }

  lemma {:induction false} ElementsAreSafe(parts: seq<Part>)
    requires EncodeAll(parts).Some?
    ensures forall i :: 0 <= i < |parts| ==> (SafeElement(EncodeAll(parts).value[i]) <==> !FalseQuote(parts[i]))
  {
    EncodedEach(parts);
    forall i | 0 <= i < |parts|
      ensures SafeElement(EncodeAll(parts).value[i]) <==> !FalseQuote(parts[i])
    {
      assert Some(EncodeAll(parts).value[i]) == EncodePart(parts[i]);
      ElementIsSafe(parts[i]);
    }
  }

  /** Decoding never makes the one part that could slip past: an unknown part named as a quote. */
  lemma {:induction false} DecodedHasNoFalseQuote(c: Coercions, j: Json)
    requires DecodeValue(c, j).Some?
    ensures forall p :: p in DecodeValue(c, j).value ==> !(p.Unknown? && p.typeName == QUOTE)
    decreases j, 1
  {
    TypeNames();
    match j
    case JArr(items) => NoneHasFalseQuote(c, items);
    case JObj(fields) =>
      if |fields| == 1 {
        var t :| t in fields;
        OnlyKey(fields, t);
      }
    case _ =>
  }

  lemma {:induction false} NoneHasFalseQuote(c: Coercions, items: seq<Json>)
    requires DecodeAll(c, items).Some?
    ensures forall p :: p in DecodeAll(c, items).value ==> !(p.Unknown? && p.typeName == QUOTE)
    decreases items, 0
  {
    if items != [] {
      DecodedHasNoFalseQuote(c, items[0]);
      NoneHasFalseQuote(c, items[1..]);
    }
  }

  /** So whatever was received, and is then written again, quotes nothing it may not. */
  lemma {:induction false} ReceivedIsSafeToWrite(c: Coercions, j: Json)
    requires DecodeValue(c, j).Some? && EncodeContent(DecodeValue(c, j).value).Some?
    ensures SafeContent(EncodeContent(DecodeValue(c, j).value).value)
  {
    DecodedHasNoFalseQuote(c, j);
    ContentIsSafe(DecodeValue(c, j).value);
  }
}
