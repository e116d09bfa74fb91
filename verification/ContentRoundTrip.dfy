/** What decoding what was encoded gives back. */
module ContentRoundTrip {
  import opened Prelude
  import opened JsText
  import opened WireGrammar
  import opened ContentParts
  import opened ContentCodec

  // ---------- well-formed parts ----------

  predicate Proper(rest: Rest) {
    rest.Some? ==> rest.value != []
  }

  predicate IsIntNum(n: Num) {
    n.Finite? && n.r.Floor as real == n.r
  }

  /** An aspect of 0 would be read as 1. */
  predicate MediaFits(m: Media) {
    && m.widthAspect.Finite? && m.widthAspect.r != 0.0 && m.heightAspect.Finite? && m.heightAspect.r != 0.0
    && m.size.Finite? && m.createdAt.Finite?
  }

  predicate NodeSetFits(s: Option<NodeSet>) {
    s.Some? ==> IsIntNum(s.value.threshold)
  }

  predicate FrontierFits(frontier: map<JsString, JsString>) {
    forall m :: m in frontier ==> IsWireMessageId(m) && IsSignHash(frontier[m])
  }

  /** A value that decoding leaves as an unknown part of its type. */
  predicate StaysUnknown(c: Coercions, t: JsString, value: Json) {
    if !value.JArr? then !NeedsArray(t)
    else
      var r := value.items;
      if t == AVATAR then !(|r| >= 2 && r[0].JStr? && IsAvatarId(r[0].s) && PhotoFromWire(c, r[1]).Some?)
      else if t == AVATAR_REMOVED then !(|r| >= 1 && r[0].JStr? && IsAvatarId(r[0].s))
      else if t == GALLERY_ACCESS then
        !(|r| >= 3 && r[0] == JNum(1.0) && r[1].JStr? && IsGalleryUuid(r[1].s) && r[2].JStr? && IsGalleryKey(r[2].s))
      else !NeedsArray(t)
  }

  /** What the types and the wire's own rules ask of a part that is neither a quote nor an avatar. */
  predicate FlatFits(c: Coercions, p: Part)
    requires !p.Quote? && !p.Avatar?
  {
    match p
    case Text(_) => true
    case File(_, size, _, createdAt, _, _, rest) => size.Finite? && createdAt.Finite? && Proper(rest)
    case Image(media, _, _, rest) => MediaFits(media) && Proper(rest)
    case InlineImage(media, _, rest) => MediaFits(media) && Proper(rest)
    case Video(media, duration, _, _, rest) => MediaFits(media) && IsIntNum(duration) && duration.r >= 0.0 && Proper(rest)
    case AvatarRemoved(avatarId, rest) => IsAvatarId(avatarId) && Proper(rest)
    case GalleryAccess(version, uuid, key, rest) => version == Finite(1.0) && IsGalleryUuid(uuid) && IsGalleryKey(key) && Proper(rest)
    case Checkpoint(version, _, _, _, _, frontier, createdAt, rest) =>
      version.Finite? && createdAt.Finite? && FrontierFits(frontier) && Proper(rest)
    case RecoveryShare(_, version, threshold, total, _, createdAt, _, shareIndex, _, nodeSet, rest) =>
      IsIntNum(version) && IsIntNum(threshold) && IsIntNum(total) && createdAt.Finite? && IsIntNum(shareIndex) && NodeSetFits(nodeSet) && Proper(rest)
    case RecoveryShareReturn(_, version, _, threshold, total, shareIndex, round, _, _, createdAt, _, nodeSet, rest) =>
      IsIntNum(version) && IsIntNum(threshold) && IsIntNum(total) && IsIntNum(shareIndex) && IsIntNum(round) && createdAt.Finite?
      && NodeSetFits(nodeSet) && Proper(rest)
    case RecoveryHolding(_, version, _, shareIndex, _, _, rest) => IsIntNum(version) && IsIntNum(shareIndex) && Proper(rest)
    case RecoveryBinding(_, _, _, _, rest) => Proper(rest)
    case RecoveryInvite(_, _, rest) => Proper(rest)
    case RecoveryInviteReply(_, _, _, _, rest) => Proper(rest)
    case Unknown(t, value) => StaysUnknown(c, t, value)
  }

  /** A part that the wire can carry. Of a quote, only what the quote may carry has to be. */
  predicate Fits(c: Coercions, p: Part)
    decreases Height(p), 0, 0
  {
    match p
    case Quote(_, _, _, snapshot, rest) =>
      SnapshotHeight(snapshot);
      Proper(rest) && FitsAll(c, QuoteSnapshot(snapshot))
    case Avatar(avatarId, photo, rest) =>
      IsAvatarId(avatarId) && Proper(rest) && (photo.Image? || photo.InlineImage?) && Fits(c, photo)
    case _ => FlatFits(c, p)
  }

  predicate FitsAll(c: Coercions, parts: seq<Part>)
    decreases HeightOf(parts), 1, |parts|
  {
    parts == [] || (assert parts[0] in parts; Fits(c, parts[0]) && FitsAll(c, parts[1..]))
  }

  // ---------- pieces ----------

  /** The type names are different: by their lengths, or by one letter. */
  lemma {:induction false} TypeNames()
    ensures |QUOTE| == 5 && |IMAGE| == 5 && |VIDEO| == 5 && QUOTE[0] == 113 && IMAGE[0] == 105 && VIDEO[0] == 118
    ensures |FILE| == 4 && |AVATAR| == 6 && |CHECKPOINT| == 10 && |INLINE_IMAGE| == 12 && |RECOVERY_INVITE| == 15
    ensures |AVATAR_REMOVED| == 14 && |RECOVERY_SHARE| == 14 && AVATAR_REMOVED[0] == 97 && RECOVERY_SHARE[0] == 114
    ensures |RECOVERY_HOLDING| == 16 && |RECOVERY_BINDING| == 16 && RECOVERY_HOLDING[9] == 104 && RECOVERY_BINDING[9] == 98
    ensures |GALLERY_ACCESS| == 21 && |RECOVERY_SHARE_RETURN| == 21 && |RECOVERY_INVITE_REPLY| == 21
    ensures GALLERY_ACCESS[9] == 108 && RECOVERY_SHARE_RETURN[9] == 115 && RECOVERY_INVITE_REPLY[9] == 105
    ensures |TYPE| == 4 && TYPE[1] == 121 && |TEXT| == 4 && TEXT[1] == 101
  {
  }

  lemma {:induction false} DecodeOneKey(c: Coercions, t: JsString, value: Json)
    ensures DecodeValue(c, JObj(map[t := value])) == DecodeTyped(c, t, value)
  {
    TypeNames();
    var fields: map<JsString, Json> := map[t := value];
    assert |fields| == 1;
    OnlyKey(fields, t);
  }

  /** The known positions stay in place before a tail, and the tail is what tailOf cuts off. */
  lemma {:induction false} TailFollows(known: seq<Json>, rest: Rest)
    requires Proper(rest)
    ensures TailOf(known + RestOf(rest), |known|) == rest
    ensures |known + RestOf(rest)| >= |known| && forall i :: 0 <= i < |known| ==> (known + RestOf(rest))[i] == known[i]
  {
    assert (known + RestOf(rest))[|known|..] == RestOf(rest);
  }

  lemma {:induction false} MediaRoundTrip(c: Coercions, m: Media, items: seq<Json>)
    requires MediaFits(m) && |items| >= 7 && items[..7] == MediaItems(m)
    ensures DecodeMedia(c, items) == Some(m)
  {
    assert forall i :: 0 <= i < 7 ==> items[i] == items[..7][i];
  }

  /** The array a flat part is written as. */
  function Written(p: Part): seq<Json>
    requires !p.Text? && !p.Quote? && !p.Avatar? && !p.Unknown? && Known(p).Some?
  {
    Known(p).value + Tail(p)
  }

  // ---------- one kind at a time ----------

  lemma {:induction false} ImageRoundTrip(c: Coercions, p: Part)
    requires p.Image? && FlatFits(c, p)
    ensures Known(p).Some? && DecodeTyped(c, TypeOf(p), JArr(Written(p))) == Some([p])
  {
    TypeNames();
    var known := Known(p).value;
    TailFollows(known, p.rest);
    assert known[7] == JStr(p.fileId) && known[8] == JStr(p.encSecret);
    assert Written(p)[..7] == MediaItems(p.media);
    MediaRoundTrip(c, p.media, Written(p));
    assert DecodeEnvelope(c, IMAGE, Written(p)) == Some(p);
  }

  lemma {:induction false} InlineImageRoundTrip(c: Coercions, p: Part)
    requires p.InlineImage? && FlatFits(c, p)
    ensures Known(p).Some? && DecodeTyped(c, TypeOf(p), JArr(Written(p))) == Some([p])
  {
    TypeNames();
    var known := Known(p).value;
    TailFollows(known, p.rest);
    assert known[7] == JStr(p.data);
    assert Written(p)[..7] == MediaItems(p.media);
    MediaRoundTrip(c, p.media, Written(p));
    assert DecodeEnvelope(c, INLINE_IMAGE, Written(p)) == Some(p);
  }

  lemma {:induction false} VideoRoundTrip(c: Coercions, p: Part)
    requires p.Video? && FlatFits(c, p)
    ensures Known(p).Some? && DecodeTyped(c, TypeOf(p), JArr(Written(p))) == Some([p])
  {
    TypeNames();
    var known := Known(p).value;
    TailFollows(known, p.rest);
    assert known[7] == JNum(p.duration.r) && known[8] == JStr(p.fileId) && known[9] == JStr(p.encSecret);
    assert Written(p)[..7] == MediaItems(p.media);
    MediaRoundTrip(c, p.media, Written(p));
    WholeIsWhole(p.duration);
    assert DecodeEnvelope(c, VIDEO, Written(p)) == Some(p);
  }

  lemma {:induction false} WholeIsWhole(n: Num)
    requires IsIntNum(n) && n.r >= 0.0
    ensures WholeSeconds(n) == n
  {
    HalfIsRoundedAway(n.r.Floor);
  }

  lemma {:induction false} HalfIsRoundedAway(k: int)
    ensures (k as real + 0.5).Floor == k
  {
    var f := (k as real + 0.5).Floor;
    assert f as real <= k as real + 0.5 < f as real + 1.0;
    assert (f - k) as real == f as real - k as real;
  }

  lemma {:induction false} FileRoundTrip(c: Coercions, p: Part)
    requires p.File? && FlatFits(c, p)
    ensures Known(p).Some? && DecodeTyped(c, TypeOf(p), JArr(Written(p))) == Some([p])
  {
    TypeNames();
    TailFollows(Known(p).value, p.rest);
  }

  lemma {:induction false} FrontierRoundTrip(frontier: map<JsString, JsString>)
    requires forall m :: m in frontier ==> IsWireMessageId(m) && IsSignHash(frontier[m])
    ensures var wire := FrontierToJson(frontier);
            wire.JObj? && IsFrontier(wire.fields) && (map m | m in wire.fields :: wire.fields[m].s) == frontier
  {
  }

  lemma {:induction false} CheckpointRoundTrip(c: Coercions, p: Part)
    requires p.Checkpoint? && FlatFits(c, p)
    ensures Known(p).Some? && DecodeTyped(c, TypeOf(p), JArr(Written(p))) == Some([p])
  {
    TypeNames();
    TailFollows(Known(p).value, p.rest);
    FrontierRoundTrip(p.frontier);
    assert Written(p)[5] == FrontierToJson(p.frontier);
    assert DecodeEnvelope(c, CHECKPOINT, Written(p)) == DecodeCheckpoint(c, Written(p));
  }

  lemma {:induction false} PhotoGrantRoundTrip(c: Coercions, p: Part)
    requires p.AvatarRemoved? || p.GalleryAccess?
    requires FlatFits(c, p)
    ensures Known(p).Some? && DecodeTyped(c, TypeOf(p), JArr(Written(p))) == Some([p])
  {
    TypeNames();
    TailFollows(Known(p).value, p.rest);
  }

  /** The recovery kinds are decoded by their own function. */
  lemma {:induction false} RecoveryDecodes(c: Coercions, t: JsString, r: seq<Json>, p: Part)
    requires t in {RECOVERY_SHARE, RECOVERY_SHARE_RETURN, RECOVERY_HOLDING, RECOVERY_BINDING, RECOVERY_INVITE, RECOVERY_INVITE_REPLY}
    requires DecodeRecovery(t, r) == Some(p)
    ensures DecodeTyped(c, t, JArr(r)) == Some([p])
  {
    TypeNames();
    assert DecodeEnvelope(c, t, r) == DecodeRecovery(t, r);
  }

  lemma {:induction false} HoldingRoundTrip(c: Coercions, p: Part)
    requires p.RecoveryHolding? && FlatFits(c, p)
    ensures Known(p).Some? && DecodeTyped(c, TypeOf(p), JArr(Written(p))) == Some([p])
  {
    TypeNames();
    TailFollows(Known(p).value, p.rest);
    RecoveryDecodes(c, RECOVERY_HOLDING, Written(p), p);
  }

  lemma {:induction false} BindingRoundTrip(c: Coercions, p: Part)
    requires p.RecoveryBinding? && FlatFits(c, p)
    ensures Known(p).Some? && DecodeTyped(c, TypeOf(p), JArr(Written(p))) == Some([p])
  {
    TypeNames();
    TailFollows(Known(p).value, p.rest);
    RecoveryDecodes(c, RECOVERY_BINDING, Written(p), p);
  }

  lemma {:induction false} InviteRoundTrip(c: Coercions, p: Part)
    requires p.RecoveryInvite? && FlatFits(c, p)
    ensures Known(p).Some? && DecodeTyped(c, TypeOf(p), JArr(Written(p))) == Some([p])
  {
    TypeNames();
    TailFollows(Known(p).value, p.rest);
    RecoveryDecodes(c, RECOVERY_INVITE, Written(p), p);
  }

  lemma {:induction false} InviteReplyRoundTrip(c: Coercions, p: Part)
    requires p.RecoveryInviteReply? && FlatFits(c, p)
    ensures Known(p).Some? && DecodeTyped(c, TypeOf(p), JArr(Written(p))) == Some([p])
  {
    TypeNames();
    TailFollows(Known(p).value, p.rest);
    RecoveryDecodes(c, RECOVERY_INVITE_REPLY, Written(p), p);
  }

  lemma {:induction false} StringsRoundTrip(texts: seq<JsString>)
    ensures AllStrings(Strings(texts).items) && TextsOf(Strings(texts).items) == texts
  {
  }

  lemma {:induction false} NodeSetRoundTrip(n: NodeSet)
    requires NodeSetFits(Some(n))
    ensures NodeSetFromJson(NodeSetToJson(n)) == Some(n)
  {
    StringsRoundTrip(n.nodes);
  }

  /** What the last known position of a share and those after it are read as. */
  lemma {:induction false} ProofReads(known: seq<Json>, tail: seq<Json>, proof: seq<JsString>)
    requires |known| > 0 && known[|known| - 1] == Strings(proof)
    ensures var items := known + tail;
            items[|known| - 1] == Strings(proof) && AllStrings(Strings(proof).items) && TextsOf(Strings(proof).items) == proof
    ensures |tail| > 0 ==> (known + tail)[|known|] == tail[0]
  {
    StringsRoundTrip(proof);
  }

  lemma {:induction false} ShareTailWithSet(known: seq<Json>, proof: seq<JsString>, n: NodeSet, rest: Rest)
    requires |known| > 0 && known[|known| - 1] == Strings(proof) && NodeSetFits(Some(n)) && Proper(rest)
    ensures DecodeShareTail(known + WithNodeSet(Some(n), rest), |known| - 1) == Some(ShareTail(proof, Some(n), rest))
  {
    var tail := [NodeSetToJson(n)] + RestOf(rest);
    ProofReads(known, tail, proof);
    NodeSetRoundTrip(n);
    assert known + tail == (known + [NodeSetToJson(n)]) + RestOf(rest);
    TailFollows(known + [NodeSetToJson(n)], rest);
  }

  lemma {:induction false} ShareTailWithoutSet(known: seq<Json>, proof: seq<JsString>, rest: Rest)
    requires |known| > 0 && known[|known| - 1] == Strings(proof) && Proper(rest)
    ensures DecodeShareTail(known + WithNodeSet(None, rest), |known| - 1) == Some(ShareTail(proof, None, rest))
  {
    var tail := WithNodeSet(None, rest);
    ProofReads(known, tail, proof);
    if rest.Some? {
      assert known + tail == (known + [JNull]) + RestOf(rest);
      TailFollows(known + [JNull], rest);
    }
  }

  /** A share's proof, its node set or the absence of one, and what follows, come back. */
  lemma {:induction false} ShareTailRoundTrip(known: seq<Json>, proof: seq<JsString>, nodeSet: Option<NodeSet>, rest: Rest)
    requires |known| > 0 && known[|known| - 1] == Strings(proof) && NodeSetFits(nodeSet) && Proper(rest)
    ensures DecodeShareTail(known + WithNodeSet(nodeSet, rest), |known| - 1) == Some(ShareTail(proof, nodeSet, rest))
  {
    if nodeSet.Some? {
      ShareTailWithSet(known, proof, nodeSet.value, rest);
    } else {
      ShareTailWithoutSet(known, proof, rest);
    }
  }

  lemma {:induction false} ShareRoundTrip(c: Coercions, p: Part)
    requires p.RecoveryShare? && FlatFits(c, p)
    ensures Known(p).Some? && DecodeTyped(c, TypeOf(p), JArr(Written(p))) == Some([p])
  {
    TypeNames();
    var known := Known(p).value;
    ShareTailRoundTrip(known, p.splitProof, p.nodeSet, p.rest);
    assert forall i :: 0 <= i < |known| ==> Written(p)[i] == known[i];
    assert Head(known, "siiisnsi");
    assert Head(Written(p), "siiisnsi");
    RecoveryDecodes(c, RECOVERY_SHARE, Written(p), p);
  }

  lemma {:induction false} ShareReturnRoundTrip(c: Coercions, p: Part)
    requires p.RecoveryShareReturn? && FlatFits(c, p)
    ensures Known(p).Some? && DecodeTyped(c, TypeOf(p), JArr(Written(p))) == Some([p])
  {
    TypeNames();
    var known := Known(p).value;
    ShareTailRoundTrip(known, p.splitProof, p.nodeSet, p.rest);
    assert forall i :: 0 <= i < |known| ==> Written(p)[i] == known[i];
    assert Head(known, "sisiiiissn");
    assert Head(Written(p), "sisiiiissn");
    RecoveryDecodes(c, RECOVERY_SHARE_RETURN, Written(p), p);
  }

  lemma {:induction false} UnknownRoundTrip(c: Coercions, p: Part)
    requires p.Unknown? && FlatFits(c, p)
    ensures DecodeTyped(c, p.typeName, p.value) == Some([p])
  {
    TypeNames();
  }

  lemma {:induction false} FlatRoundTrip(c: Coercions, p: Part)
    requires !p.Quote? && !p.Avatar? && FlatFits(c, p)
    ensures EncodePart(p).Some? && !EncodePart(p).value.JArr?
    ensures DecodeValue(c, EncodePart(p).value) == Some([p])
  {
    if p.Unknown? {
      UnknownRoundTrip(c, p);
      DecodeOneKey(c, p.typeName, p.value);
    } else if !p.Text? {
      EnvelopeRoundTrip(c, p);
      DecodeOneKey(c, TypeOf(p), JArr(Written(p)));
    }
  }

  lemma {:induction false} EnvelopeRoundTrip(c: Coercions, p: Part)
    requires !p.Text? && !p.Unknown? && !p.Quote? && !p.Avatar? && FlatFits(c, p)
    ensures Known(p).Some? && DecodeTyped(c, TypeOf(p), JArr(Written(p))) == Some([p])
  {
    if p.Image? { ImageRoundTrip(c, p); }
    else if p.InlineImage? { InlineImageRoundTrip(c, p); }
    else if p.Video? { VideoRoundTrip(c, p); }
    else if p.File? { FileRoundTrip(c, p); }
    else if p.Checkpoint? { CheckpointRoundTrip(c, p); }
    else if p.AvatarRemoved? || p.GalleryAccess? { PhotoGrantRoundTrip(c, p); }
    else if p.RecoveryShare? { ShareRoundTrip(c, p); }
    else if p.RecoveryShareReturn? { ShareReturnRoundTrip(c, p); }
    else if p.RecoveryHolding? { HoldingRoundTrip(c, p); }
    else if p.RecoveryBinding? { BindingRoundTrip(c, p); }
    else if p.RecoveryInvite? { InviteRoundTrip(c, p); }
    else { InviteReplyRoundTrip(c, p); }
  }

  // ---------- whole messages ----------

  lemma {:induction false} AvatarEnvelope(c: Coercions, known: seq<Json>, photo: Part, rest: Rest)
    requires |known| == 2 && known[0].JStr? && IsAvatarId(known[0].s) && Proper(rest)
    requires PhotoFromWire(c, known[1]) == Some(photo)
    ensures DecodeValue(c, Envelope(AVATAR, known + RestOf(rest))) == Some([Avatar(known[0].s, photo, rest)])
  {
    TypeNames();
    TailFollows(known, rest);
    DecodeOneKey(c, AVATAR, JArr(known + RestOf(rest)));
  }

  lemma {:induction false} AvatarRoundTrip(c: Coercions, p: Part)
    requires p.Avatar? && Fits(c, p)
    ensures EncodePart(p).Some? && !EncodePart(p).value.JArr?
    ensures DecodeValue(c, EncodePart(p).value) == Some([p])
  {
    FlatRoundTrip(c, p.photo);
    var wire := EncodePart(p.photo).value;
    assert wire.JObj? && PhotoFromWire(c, wire) == Some(p.photo);
    var known := [JStr(p.avatarId), wire];
    assert EncodePart(p) == Some(Envelope(AVATAR, known + RestOf(p.rest)));
    AvatarEnvelope(c, known, p.photo, p.rest);
  }

  lemma {:induction false} QuoteEnvelope(c: Coercions, known: seq<Json>, snapshot: seq<Part>, rest: Rest)
    requires |known| == 4 && known[0].JStr? && known[1].JStr? && known[2].JStr? && Proper(rest)
    requires DecodeValue(c, known[3]) == Some(snapshot)
    ensures DecodeValue(c, Envelope(QUOTE, known + RestOf(rest))) == Some([Quote(known[0].s, known[1].s, known[2].s, snapshot, rest)])
  {
    TailFollows(known, rest);
    DecodeOneKey(c, QUOTE, JArr(known + RestOf(rest)));
  }

  lemma {:induction false} QuoteRoundTrip(c: Coercions, p: Part)
    requires p.Quote? && Fits(c, p) && EncodeValue(QuoteSnapshot(p.snapshot)).Some?
    requires DecodeValue(c, EncodeValue(QuoteSnapshot(p.snapshot)).value) == Some(SanitisedAll(QuoteSnapshot(p.snapshot)))
    ensures EncodePart(p).Some? && !EncodePart(p).value.JArr?
    ensures DecodeValue(c, EncodePart(p).value) == Some([Sanitised(p)])
  {
    SnapshotHeight(p.snapshot);
    var snapshot := QuoteSnapshot(p.snapshot);
    var known := [JStr(p.authorHash), JStr(p.messageId), JStr(p.signHash), EncodeValue(snapshot).value];
    assert EncodePart(p) == Some(Envelope(QUOTE, known + RestOf(p.rest)));
    QuoteEnvelope(c, known, SanitisedAll(snapshot), p.rest);
  }

  /** Decoding an encoded part gives it back, its quotes made safe at every depth. */
  lemma {:induction false} PartRoundTrip(c: Coercions, p: Part)
    requires Fits(c, p)
    ensures EncodePart(p).Some? && !EncodePart(p).value.JArr?
    ensures DecodeValue(c, EncodePart(p).value) == Some([Sanitised(p)])
    decreases Height(p), 0, 0
  {
    if p.Quote? {
      SnapshotHeight(p.snapshot);
      ValueRoundTrip(c, QuoteSnapshot(p.snapshot));
      QuoteRoundTrip(c, p);
    } else if p.Avatar? {
      AvatarRoundTrip(c, p);
    } else {
      FlatRoundTrip(c, p);
    }
  }

  /** Of all parts only the images are read back as an avatar's photo, each as it was. */
  lemma {:induction false} PhotosComeBack(c: Coercions, p: Part)
    requires Fits(c, p)
    ensures EncodePart(p).Some?
    ensures PhotoFromWire(c, EncodePart(p).value) == if p.Image? || p.InlineImage? then Some(p) else None
  {
    PartRoundTrip(c, p);
    if p.Image? || p.InlineImage? {
      assert EncodePart(p) == Some(Envelope(TypeOf(p), Written(p)));
    }
  }

  lemma {:induction false} AllRoundTrip(c: Coercions, parts: seq<Part>)
    requires FitsAll(c, parts)
    ensures EncodeAll(parts).Some? && DecodeAll(c, EncodeAll(parts).value) == Some(SanitisedAll(parts))
    decreases HeightOf(parts), 1, |parts|
  {
    if parts != [] {
      assert parts[0] in parts;
      PartRoundTrip(c, parts[0]);
      AllRoundTrip(c, parts[1..]);
      var items := EncodeAll(parts).value;
      assert items[0] == EncodePart(parts[0]).value && items[1..] == EncodeAll(parts[1..]).value;
    }
  }

  lemma {:induction false} ValueRoundTrip(c: Coercions, parts: seq<Part>)
    requires FitsAll(c, parts)
    ensures EncodeValue(parts).Some? && DecodeValue(c, EncodeValue(parts).value) == Some(SanitisedAll(parts))
    decreases HeightOf(parts), 2, |parts|
  {
    if |parts| == 1 {
      assert parts[0] in parts;
      PartRoundTrip(c, parts[0]);
      assert SanitisedAll(parts) == [Sanitised(parts[0])];
    } else {
      AllRoundTrip(c, parts);
    }
  }

  /** A message comes back with its quotes made safe; the empty one comes back as one empty text. */
  lemma {:induction false} ContentRoundTrips(c: Coercions, parts: seq<Part>)
    requires FitsAll(c, parts)
    ensures EncodeContent(parts).Some?
    ensures DecodeValue(c, EncodeContent(parts).value) == Some(if parts == [] then [Text([])] else SanitisedAll(parts))
  {
    if parts != [] {
      ValueRoundTrip(c, parts);
    }
  }

  // ---------- encoding again what was decoded ----------

  /** Every number of a part is one JSON can write. Of a quote's snapshot, only copied parts keep theirs. */
  predicate FiniteNumbers(p: Part)
    decreases p
  {
    match p
    case File(_, size, _, createdAt, _, _, _) => size.Finite? && createdAt.Finite?
    case Image(media, _, _, _) => FiniteMedia(media)
    case InlineImage(media, _, _) => FiniteMedia(media)
    case Video(media, duration, _, _, _) => FiniteMedia(media) && duration.Finite?
    case Checkpoint(version, _, _, _, _, _, createdAt, _) => version.Finite? && createdAt.Finite?
    case Avatar(_, photo, _) => FiniteNumbers(photo)
    case Quote(_, _, _, snapshot, _) => forall i :: 0 <= i < |snapshot| ==> FiniteNumbers(snapshot[i])
    case _ => true
  }

  predicate FiniteMedia(m: Media) {
    m.widthAspect.Finite? && m.heightAspect.Finite? && m.size.Finite? && m.createdAt.Finite?
  }

  lemma {:induction false} FitsAllAppend(c: Coercions, a: seq<Part>, b: seq<Part>)
    requires FitsAll(c, a) && FitsAll(c, b)
    ensures FitsAll(c, a + b)
  {
    if a == [] {
      assert a + b == b;
    } else {
      FitsAllAppend(c, a[1..], b);
      assert (a + b)[0] == a[0] && (a + b)[1..] == a[1..] + b;
    }
  }

  lemma {:induction false} SnapshotFits(c: Coercions, parts: seq<Part>)
    requires FitsAll(c, parts)
    ensures FitsAll(c, QuoteSnapshot(parts))
  {
    if parts != [] {
      SnapshotFits(c, parts[1..]);
      var q := QuoteSnapshot(parts);
      if !IsControl(parts[0]) {
        assert q[0] == Quotable(parts[0]) && q[1..] == QuoteSnapshot(parts[1..]);
        assert Fits(c, q[0]);
      } else {
        assert q == QuoteSnapshot(parts[1..]);
      }
    }
  }

  lemma {:induction false} DecodedTailIsProper(items: seq<Json>, known: nat)
    ensures Proper(TailOf(items, known))
  {
  }

  lemma {:induction false} WholeSecondsAreWhole(n: Num)
    ensures WholeSeconds(n).Finite? ==> IsIntNum(WholeSeconds(n)) && WholeSeconds(n).r >= 0.0
  {
    if n.Finite? {
      var whole := (n.r + 0.5).Floor;
      assert (whole as real).Floor == whole;
    }
  }

  /** Math.round: the nearest whole number, halves up, and none below 0. */
  lemma {:induction false} SecondsAreNearest(r: real)
    ensures WholeSeconds(Finite(r)).Finite?
    ensures var w := WholeSeconds(Finite(r)).r; if r >= -0.5 then w - 0.5 <= r < w + 0.5 else w == 0.0
  {
    var whole := (r + 0.5).Floor;
    assert (whole as real).Floor == whole;
  }

  /** Types that never make decoding throw, whatever their value: it is read, or kept as it came. */
  lemma {:induction false} TolerantTypes(c: Coercions, t: JsString, value: Json)
    requires !NeedsArray(t)
    ensures DecodeTyped(c, t, value).Some? && |DecodeTyped(c, t, value).value| == 1
    ensures var p := DecodeTyped(c, t, value).value[0];
            p == Unknown(t, value) || (p.Avatar? && t == AVATAR) || (p.AvatarRemoved? && t == AVATAR_REMOVED)
            || (p.GalleryAccess? && t == GALLERY_ACCESS)
  {
    TypeNames();
    if value.JArr? && t != AVATAR {
      var p := DecodeEnvelope(c, t, value.items).value;
      assert value == JArr(value.items);
    }
  }

  lemma {:induction false} FitsOne(c: Coercions, p: Part)
    requires Fits(c, p)
    ensures FitsAll(c, [p])
  {
    assert [p][1..] == [];
  }

  lemma {:induction false} DecodedRecoveryFits(c: Coercions, t: JsString, r: seq<Json>, p: Part)
    requires t != QUOTE && t != AVATAR && t != GALLERY_ACCESS && t != AVATAR_REMOVED && t != INLINE_IMAGE && t != VIDEO
    requires t != IMAGE && t != CHECKPOINT && t != FILE && DecodeRecovery(t, r) == Some(p)
    ensures !p.Quote? && !p.Avatar? && FlatFits(c, p)
  {
  }

  lemma {:induction false} DecodedEnvelopeFits(c: Coercions, t: JsString, r: seq<Json>, p: Part)
    requires t != QUOTE && t != AVATAR && DecodeEnvelope(c, t, r) == Some(p) && FiniteNumbers(p)
    ensures !p.Quote? && !p.Avatar? && FlatFits(c, p)
  {
    TypeNames();
    if t == VIDEO {
      WholeSecondsAreWhole(ToNum(c, r[7]).value);
    } else if t in {GALLERY_ACCESS, AVATAR_REMOVED, INLINE_IMAGE, IMAGE, CHECKPOINT, FILE} {
    } else {
      DecodedRecoveryFits(c, t, r, p);
    }
  }

  lemma {:induction false} DecodedFits(c: Coercions, j: Json, parts: seq<Part>)
    requires DecodeValue(c, j) == Some(parts) && forall i :: 0 <= i < |parts| ==> FiniteNumbers(parts[i])
    ensures FitsAll(c, parts)
    decreases j, 1
  {
    match j
    case JStr(s) => FitsOne(c, Text(s));
    case JArr(items) => AllDecodedFit(c, items, parts);
    case JObj(fields) =>
      if TYPE in fields && fields[TYPE] == JStr(TEXT) && TEXT in fields && fields[TEXT].JStr? {
        FitsOne(c, parts[0]);
      } else {
        var t :| t in fields;
        OnlyKey(fields, t);
        TypedDecodedFits(c, t, fields[t], parts);
      }
    case _ =>
  }

  lemma {:induction false} FiniteOnBothSides(a: seq<Part>, b: seq<Part>)
    requires forall i :: 0 <= i < |a + b| ==> FiniteNumbers((a + b)[i])
    ensures forall i :: 0 <= i < |a| ==> FiniteNumbers(a[i])
    ensures forall i :: 0 <= i < |b| ==> FiniteNumbers(b[i])
  {
    assert forall i :: 0 <= i < |a| ==> a[i] == (a + b)[i];
    assert forall i :: 0 <= i < |b| ==> b[i] == (a + b)[|a| + i];
  }

  lemma {:induction false} AllDecodedFit(c: Coercions, items: seq<Json>, parts: seq<Part>)
    requires DecodeAll(c, items) == Some(parts) && forall i :: 0 <= i < |parts| ==> FiniteNumbers(parts[i])
    ensures FitsAll(c, parts)
    decreases items, 0
  {
    if items != [] {
      var first, others := DecodeValue(c, items[0]).value, DecodeAll(c, items[1..]).value;
      assert parts == first + others;
      FiniteOnBothSides(first, others);
      DecodedFits(c, items[0], first);
      AllDecodedFit(c, items[1..], others);
      FitsAllAppend(c, first, others);
    }
  }

  lemma {:induction false} TypedDecodedFits(c: Coercions, t: JsString, value: Json, parts: seq<Part>)
    requires DecodeTyped(c, t, value) == Some(parts) && forall i :: 0 <= i < |parts| ==> FiniteNumbers(parts[i])
    ensures FitsAll(c, parts)
    decreases value, 1
  {
    TypeNames();
    assert parts == [parts[0]];
    if value.JArr? && t == QUOTE {
      QuoteDecodedFits(c, value, parts);
    } else if value.JArr? && t == AVATAR {
      AvatarDecodedFits(c, value, parts);
    } else if value.JArr? {
      DecodedEnvelopeFits(c, t, value.items, parts[0]);
    }
    FitsOne(c, parts[0]);
  }

  lemma {:induction false} QuoteDecodedFits(c: Coercions, value: Json, parts: seq<Part>)
    requires value.JArr? && DecodeTyped(c, QUOTE, value) == Some(parts) && |parts| == 1 && FiniteNumbers(parts[0])
    ensures Fits(c, parts[0])
    decreases value, 0
  {
    var q := value.items;
    DecodedTailIsProper(q, 4);
    DecodedFits(c, q[3], parts[0].snapshot);
    SnapshotFits(c, parts[0].snapshot);
  }

  lemma {:induction false} AvatarDecodedFits(c: Coercions, value: Json, parts: seq<Part>)
    requires value.JArr? && DecodeTyped(c, AVATAR, value) == Some(parts) && |parts| == 1 && FiniteNumbers(parts[0])
    ensures Fits(c, parts[0])
    decreases value, 0
  {
    TypeNames();
    if parts[0].Avatar? {
      PhotoFits(c, value.items[1]);
    }
  }

  lemma {:induction false} PhotoFits(c: Coercions, wire: Json)
    requires PhotoFromWire(c, wire).Some? && FiniteNumbers(PhotoFromWire(c, wire).value)
    ensures Fits(c, PhotoFromWire(c, wire).value)
    decreases wire, 2
  {
    DecodedFits(c, wire, DecodeValue(c, wire).value);
  }

  /**
   * Nothing this build does not know is lost by reading a message and writing it again: of whatever JSON decodes, with
   * numbers JSON can write, encoding and decoding again changes only what quotes may not carry.
   */
  lemma {:induction false} ReencodingLosesNothing(c: Coercions, j: Json, parts: seq<Part>)
    requires DecodeValue(c, j) == Some(parts) && parts != [] && forall i :: 0 <= i < |parts| ==> FiniteNumbers(parts[i])
    ensures EncodeContent(parts).Some? && DecodeValue(c, EncodeContent(parts).value) == Some(SanitisedAll(parts))
  {
    DecodedFits(c, j, parts);
    ContentRoundTrips(c, parts);
  }
}
