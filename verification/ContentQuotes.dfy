/** What a quote tells of the parts it does not copy, and that nothing else of them is ever written. */
module ContentQuotes {
  import opened Prelude
  import opened JsText
  import opened ContentParts
  import opened ContentCodec

  // ---------- what a part is named by ----------

  /** Parts of one kind, among those named by their kind alone. */
  predicate SameKind(p: Part, q: Part) {
    || (p.RecoveryShare? && q.RecoveryShare?) || (p.RecoveryShareReturn? && q.RecoveryShareReturn?)
    || (p.RecoveryBinding? && q.RecoveryBinding?) || (p.RecoveryHolding? && q.RecoveryHolding?)
    || (p.RecoveryInvite? && q.RecoveryInvite?) || (p.RecoveryInviteReply? && q.RecoveryInviteReply?)
    || (p.Avatar? && q.Avatar?) || (p.AvatarRemoved? && q.AvatarRemoved?)
  }

  /** What a quote tells of two parts that it does not copy is the same: of control parts nothing, of an inline image its
      name, of an unknown part its type, of any other its kind. */
  predicate NamedAlike(p: Part, q: Part) {
    || (IsControl(p) && IsControl(q)) || SameKind(p, q)
    || (p.InlineImage? && q.InlineImage? && p.media.name == q.media.name)
    || (p.Unknown? && q.Unknown? && p.typeName == q.typeName)
  }

  lemma {:induction false} SnapshotOfOne(p: Part)
    ensures QuoteSnapshot([p]) == if IsControl(p) then [] else [Quotable(p)]
  {
    assert [p][1..] == [];
  }

  /** The words that stand for each kind. */
  lemma {:induction false} KindsRead(p: Part)
    ensures p.RecoveryShare? ==> QuoteSnapshot([p]) == [Text(LOCK + Ascii(" recovery share"))]
    ensures p.RecoveryShareReturn? ==> QuoteSnapshot([p]) == [Text(LOCK + Ascii(" recovery share returned"))]
    ensures p.RecoveryBinding? ==> QuoteSnapshot([p]) == [Text(LOCK + Ascii(" recovery binding"))]
    ensures p.RecoveryHolding? ==> QuoteSnapshot([p]) == [Text(LOCK + Ascii(" backup piece status"))]
    ensures p.RecoveryInvite? ==> QuoteSnapshot([p]) == [Text(SHIELD + Ascii(" guardian invitation"))]
    ensures p.RecoveryInviteReply? ==> QuoteSnapshot([p]) == [Text(SHIELD + Ascii(" guardian invitation answered"))]
    ensures p.Avatar? ==> QuoteSnapshot([p]) == [Text(FRAME + Ascii(" profile photo"))]
    ensures p.AvatarRemoved? ==> QuoteSnapshot([p]) == [Text(FRAME + Ascii(" profile photo removed"))]
  {
    SnapshotOfOne(p);
  }

  lemma {:induction false} CopiedRead(p: Part)
    requires p.Text? || p.Quote? || p.File? || p.Image? || p.Video? || p.Checkpoint?
    ensures QuoteSnapshot([p]) == [p]
  {
    SnapshotOfOne(p);
  }

  lemma {:induction false} OthersRead(p: Part)
    ensures p.InlineImage? ==> QuoteSnapshot([p]) == [Text(FRAME + Ascii(" ") + p.media.name)]
    ensures p.Unknown? && !IsControl(p) ==> QuoteSnapshot([p]) == [Text(Ascii("[") + p.typeName + Ascii("]"))]
    ensures IsControl(p) ==> QuoteSnapshot([p]) == []
  {
    SnapshotOfOne(p);
  }

  lemma {:induction false} UnknownApart(p: Part, q: Part)
    requires p.Unknown? && q.Unknown? && !IsControl(p) && !IsControl(q)
    ensures QuoteSnapshot([p]) == QuoteSnapshot([q]) <==> p.typeName == q.typeName
  {
    OthersRead(p);
    OthersRead(q);
    Inner(p.typeName, Ascii("["), Ascii("]"));
    Inner(q.typeName, Ascii("["), Ascii("]"));
  }

  lemma {:induction false} ImagesApart(p: Part, q: Part)
    requires p.InlineImage? && q.InlineImage?
    ensures QuoteSnapshot([p]) == QuoteSnapshot([q]) <==> p.media.name == q.media.name
  {
    OthersRead(p);
    OthersRead(q);
    Inner(p.media.name, FRAME + Ascii(" "), []);
    Inner(q.media.name, FRAME + Ascii(" "), []);
  }

  lemma {:induction false} Inner(s: JsString, before: JsString, after: JsString)
    ensures (before + s + after)[|before|..|before| + |s|] == s && |before + s + after| == |before| + |s| + |after|
  {
  }

  predicate Named(p: Part) {
    SameKind(p, p)
  }

  /** How the words of a kind are told apart: the sign they start with, and their number of letters. */
  lemma {:induction false} KindShape(p: Part)
    requires Named(p)
    ensures |QuoteSnapshot([p])| == 1 && QuoteSnapshot([p])[0].Text?
    ensures var t := QuoteSnapshot([p])[0].text;
            && |t| > 1 && t[0] == 0xD83D
            && (p.RecoveryShare? ==> t[1] == 0xDD10 && |t| == 17) && (p.RecoveryShareReturn? ==> t[1] == 0xDD10 && |t| == 26)
            && (p.RecoveryBinding? ==> t[1] == 0xDD10 && |t| == 19) && (p.RecoveryHolding? ==> t[1] == 0xDD10 && |t| == 22)
            && (p.RecoveryInvite? ==> t[1] == 0xDEE1 && |t| == 22) && (p.RecoveryInviteReply? ==> t[1] == 0xDEE1 && |t| == 31)
            && (p.Avatar? ==> t[1] == 0xDDBC && |t| == 16) && (p.AvatarRemoved? ==> t[1] == 0xDDBC && |t| == 24)
  {
    KindsRead(p);
  }

  lemma {:induction false} KindsApart(p: Part, q: Part)
    requires Named(p) && Named(q)
    ensures QuoteSnapshot([p]) == QuoteSnapshot([q]) <==> SameKind(p, q)
  {
    KindShape(p);
    KindShape(q);
    KindsRead(p);
    KindsRead(q);
  }

  /**
   * A quote tells two parts it does not copy apart exactly by what names them. (An inline image is left to ImagesApart: one
   * called "profile photo" reads as a profile photo does.)
   */
  lemma {:induction false} QuoteTellsNames(p: Part, q: Part)
    requires !CopiedInQuotes(p) && !CopiedInQuotes(q) && !p.InlineImage? && !q.InlineImage?
    ensures QuoteSnapshot([p]) == QuoteSnapshot([q]) <==> NamedAlike(p, q)
  {
    SnapshotOfOne(p);
    SnapshotOfOne(q);
    if Named(p) && Named(q) {
      KindsApart(p, q);
    } else if !IsControl(p) && !IsControl(q) {
      OthersRead(p);
      OthersRead(q);
      if Named(p) {
        KindShape(p);
      } else if Named(q) {
        KindShape(q);
      } else {
        UnknownApart(p, q);
      }
    }
  }

  // ---------- at every depth ----------

  /** Two parts of a snapshot that differ only in what no quote tells, at any depth. */
  ghost predicate QuotedAlike(p: Part, q: Part)
    decreases p
  {
    || p == q
    || (!CopiedInQuotes(p) && !CopiedInQuotes(q) && NamedAlike(p, q))
    || (p.Quote? && q.Quote? && SameCitation(p, q) && |p.snapshot| == |q.snapshot|
        && forall i :: 0 <= i < |p.snapshot| ==> QuotedAlike(p.snapshot[i], q.snapshot[i]))
  }

  predicate SameCitation(p: Part, q: Part)
    requires p.Quote? && q.Quote?
  {
    p.authorHash == q.authorHash && p.messageId == q.messageId && p.signHash == q.signHash && p.rest == q.rest
  }

  ghost predicate AllQuotedAlike(ps: seq<Part>, qs: seq<Part>) {
    |ps| == |qs| && forall i :: 0 <= i < |ps| ==> QuotedAlike(ps[i], qs[i])
  }

  /** Two parts of a message that differ only inside quotes, in what those do not tell. */
  ghost predicate SaidAlike(p: Part, q: Part) {
    p == q || (p.Quote? && q.Quote? && SameCitation(p, q) && AllQuotedAlike(p.snapshot, q.snapshot))
  }

  ghost predicate AllSaidAlike(ps: seq<Part>, qs: seq<Part>) {
    |ps| == |qs| && forall i :: 0 <= i < |ps| ==> SaidAlike(ps[i], qs[i])
  }

  lemma {:induction false} NamedAlikeSame(p: Part, q: Part)
    requires !CopiedInQuotes(p) && !CopiedInQuotes(q) && NamedAlike(p, q)
    ensures IsControl(p) == IsControl(q) && (IsControl(p) || Quotable(p) == Quotable(q))
  {
    SnapshotOfOne(p);
    SnapshotOfOne(q);
    if p.InlineImage? {
      ImagesApart(p, q);
    } else {
      QuoteTellsNames(p, q);
    }
  }

  lemma {:induction false} OneSnapshotAlike(p: Part, q: Part)
    requires QuotedAlike(p, q)
    ensures IsControl(p) == IsControl(q) && (IsControl(p) || SaidAlike(Quotable(p), Quotable(q)))
  {
    if !CopiedInQuotes(p) && !CopiedInQuotes(q) && NamedAlike(p, q) {
      NamedAlikeSame(p, q);
    }
  }

  lemma {:induction false} SnapshotsAlike(ps: seq<Part>, qs: seq<Part>)
    requires AllQuotedAlike(ps, qs)
    ensures AllSaidAlike(QuoteSnapshot(ps), QuoteSnapshot(qs))
  {
    if ps != [] {
      OneSnapshotAlike(ps[0], qs[0]);
      SnapshotsAlike(ps[1..], qs[1..]);
    }
  }

  lemma {:induction false} PartSaysSame(p: Part, q: Part)
    requires SaidAlike(p, q)
    ensures EncodePart(p) == EncodePart(q)
    decreases Height(p), 0, 0
  {
    if p != q {
      SnapshotHeight(p.snapshot);
      SnapshotsAlike(p.snapshot, q.snapshot);
      ValueSaysSame(QuoteSnapshot(p.snapshot), QuoteSnapshot(q.snapshot));
    }
  }

  lemma {:induction false} AllSaySame(ps: seq<Part>, qs: seq<Part>)
    requires AllSaidAlike(ps, qs)
    ensures EncodeAll(ps) == EncodeAll(qs)
    decreases HeightOf(ps), 1, |ps|
  {
    if ps != [] {
      assert ps[0] in ps;
      PartSaysSame(ps[0], qs[0]);
      AllSaySame(ps[1..], qs[1..]);
    }
  }

  lemma {:induction false} ValueSaysSame(ps: seq<Part>, qs: seq<Part>)
    requires AllSaidAlike(ps, qs)
    ensures EncodeValue(ps) == EncodeValue(qs)
    decreases HeightOf(ps), 2, |ps|
  {
    if |ps| == 1 {
      assert ps[0] in ps;
      PartSaysSame(ps[0], qs[0]);
    } else {
      AllSaySame(ps, qs);
    }
  }

  /** Nothing of a part that a quote does not copy is written with the quote, at any depth, but what names it. */
  lemma {:induction false} QuotesKeepSecrets(ps: seq<Part>, qs: seq<Part>)
    requires AllSaidAlike(ps, qs)
    ensures EncodeContent(ps) == EncodeContent(qs)
  {
    if ps != [] {
      ValueSaysSame(ps, qs);
    }
  }
}
