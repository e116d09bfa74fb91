/** Message content: JSON values, the parts of a message, and what a quote may carry of them. */
module ContentParts {
  import opened Prelude
  import opened JsText
  import opened WireGrammar

  /** A value JSON.parse can give. */
  datatype Json =
    | JNull
    | JBool(b: bool)
    | JNum(n: real)
    | JStr(s: JsString)
    | JArr(items: seq<Json>)
    | JObj(fields: map<JsString, Json>)

  /** A JavaScript number; JSON.stringify writes the last two as null. */
  datatype Num = Finite(r: real) | NaN | Infinite(negative: bool)

  /** The array positions past the ones this build knows; absent when there are none. */
  type Rest = Option<seq<Json>>

  datatype NodeSet = NodeSet(threshold: Num, nodes: seq<JsString>)

  /** Positions 0 to 6 of every picture. */
  datatype Media = Media(
    widthAspect: Num, heightAspect: Num, thumbHash: JsString, name: JsString, size: Num, mimeType: JsString, createdAt: Num)

  datatype Part =
    | Text(text: JsString)
    | Quote(authorHash: JsString, messageId: JsString, signHash: JsString, snapshot: seq<Part>, rest: Rest)
    | File(name: JsString, size: Num, mimeType: JsString, createdAt: Num, fileId: JsString, encSecret: JsString, rest: Rest)
    | Image(media: Media, fileId: JsString, encSecret: JsString, rest: Rest)
    | InlineImage(media: Media, data: JsString, rest: Rest)
    | Video(media: Media, duration: Num, fileId: JsString, encSecret: JsString, rest: Rest)
    | Avatar(avatarId: JsString, photo: Part, rest: Rest)
    | AvatarRemoved(avatarId: JsString, rest: Rest)
    | GalleryAccess(version: Num, galleryUuid: JsString, galleryKey: JsString, rest: Rest)
    | Checkpoint(version: Num, reducerVersion: JsString, treeVersion: JsString, frontierRoot: JsString, viewRoot: JsString,
                 frontier: map<JsString, JsString>, createdAt: Num, rest: Rest)
    | RecoveryShare(secretRef: JsString, version: Num, threshold: Num, total: Num, share: JsString, createdAt: Num,
                    splitId: JsString, shareIndex: Num, splitProof: seq<JsString>, nodeSet: Option<NodeSet>, rest: Rest)
    | RecoveryShareReturn(secretRef: JsString, version: Num, splitId: JsString, threshold: Num, total: Num, shareIndex: Num,
                          round: Num, candidate: JsString, share: JsString, createdAt: Num,
                          splitProof: seq<JsString>, nodeSet: Option<NodeSet>, rest: Rest)
    | RecoveryHolding(secretRef: JsString, version: Num, splitId: JsString, shareIndex: Num, state: JsString, detail: JsString, rest: Rest)
    | RecoveryBinding(secretRef: JsString, candidate: JsString, userHash: JsString, signature: JsString, rest: Rest)
    | RecoveryInvite(inviteId: JsString, deployment: JsString, rest: Rest)
    | RecoveryInviteReply(inviteId: JsString, answer: JsString, metaAddress: JsString, proof: JsString, rest: Rest)
    | Unknown(typeName: JsString, value: Json)

  // ---------- quoting ----------

  /** A fixed spelling of each of the wire's type names. */
  const QUOTE := Ascii("quote")
  const FILE := Ascii("file")
  const IMAGE := Ascii("image")
  const INLINE_IMAGE := Ascii("inline_image")
  const VIDEO := Ascii("video")
  const AVATAR := Ascii("avatar")
  const AVATAR_REMOVED := Ascii("avatar_removed")
  const GALLERY_ACCESS := Ascii("avatar_gallery_access")
  const CHECKPOINT := Ascii("checkpoint")
  const RECOVERY_SHARE := Ascii("recovery_share")
  const RECOVERY_SHARE_RETURN := Ascii("recovery_share_return")
  const RECOVERY_HOLDING := Ascii("recovery_holding")
  const RECOVERY_BINDING := Ascii("recovery_binding")
  const RECOVERY_INVITE := Ascii("recovery_invite")
  const RECOVERY_INVITE_REPLY := Ascii("recovery_invite_reply")

  const LOCK: JsString := [0xD83D, 0xDD10]
  const SHIELD: JsString := [0xD83D, 0xDEE1]
  const FRAME: JsString := [0xD83D, 0xDDBC]

  /** isControlPart */
  predicate IsControl(p: Part) {
    p.GalleryAccess? || (p.Unknown? && p.typeName == GALLERY_ACCESS)
  }

  /** COPIED_IN_QUOTES */
  predicate CopiedInQuotes(p: Part) {
    p.Text? || p.Quote? || p.File? || p.Image? || p.Video? || p.Checkpoint?
  }

  /** The label that stands for a part that is not copied. */
  function Label(p: Part): JsString {
    match p
    case RecoveryShare(_, _, _, _, _, _, _, _, _, _, _) => LOCK + Ascii(" recovery share")
    case RecoveryShareReturn(_, _, _, _, _, _, _, _, _, _, _, _, _) => LOCK + Ascii(" recovery share returned")
    case RecoveryBinding(_, _, _, _, _) => LOCK + Ascii(" recovery binding")
    case RecoveryHolding(_, _, _, _, _, _, _) => LOCK + Ascii(" backup piece status")
    case RecoveryInvite(_, _, _) => SHIELD + Ascii(" guardian invitation")
    case RecoveryInviteReply(_, _, _, _, _) => SHIELD + Ascii(" guardian invitation answered")
    case Avatar(_, _, _) => FRAME + Ascii(" profile photo")
    case AvatarRemoved(_, _) => FRAME + Ascii(" profile photo removed")
    case InlineImage(media, _, _) => FRAME + Ascii(" ") + media.name
    case Unknown(typeName, _) => Ascii("[") + typeName + Ascii("]")
    case _ => Ascii("[avatar_gallery_access]")
  }

  function Quotable(p: Part): (r: Part)
    ensures CopiedInQuotes(r)
  {
    if CopiedInQuotes(p) then p else Text(Label(p))
  }

  function QuoteSnapshot(parts: seq<Part>): (r: seq<Part>)
    ensures forall p :: p in r ==> CopiedInQuotes(p)
  {
    if parts == [] then []
    else (if IsControl(parts[0]) then [] else [Quotable(parts[0])]) + QuoteSnapshot(parts[1..])
  }

  /** How deep a part nests others; what bounds every recursion over parts. */
  function Height(p: Part): nat
    decreases p
  {
    match p
    case Quote(_, _, _, snapshot, _) => 1 + HeightOf(snapshot)
    case Avatar(_, photo, _) => 1 + Height(photo)
    case _ => 0
  }

  function HeightOf(parts: seq<Part>): (n: nat)
    ensures forall p :: p in parts ==> Height(p) <= n
    decreases parts
  {
    if parts == [] then 0
    else
      var n, m := Height(parts[0]), HeightOf(parts[1..]);
      assert forall p :: p in parts ==> p == parts[0] || p in parts[1..];
      if n < m then m else n
  }

  /** A snapshot made safe nests no deeper. */
  lemma {:induction false} SnapshotHeight(parts: seq<Part>)
    ensures HeightOf(QuoteSnapshot(parts)) <= HeightOf(parts)
  {
    if parts != [] {
      SnapshotHeight(parts[1..]);
      var q := QuoteSnapshot(parts);
      if !IsControl(parts[0]) {
        assert q[0] == Quotable(parts[0]) && q[1..] == QuoteSnapshot(parts[1..]);
      } else {
        assert q == QuoteSnapshot(parts[1..]);
      }
    }
  }

  // ---------- sanitising at every depth ----------

  function Sanitised(p: Part): Part
    decreases Height(p), 0, 0
  {
    if p.Quote? then
      SnapshotHeight(p.snapshot);
      p.(snapshot := SanitisedAll(QuoteSnapshot(p.snapshot)))
    else p
  }

  function SanitisedAll(parts: seq<Part>): (r: seq<Part>)
    ensures |r| == |parts|
    decreases HeightOf(parts), 1, |parts|
  {
    if parts == [] then []
    else [Sanitised(parts[0])] + SanitisedAll(parts[1..])
  }

  lemma {:induction false} SanitisedKind(p: Part)
    ensures CopiedInQuotes(Sanitised(p)) == CopiedInQuotes(p) && IsControl(Sanitised(p)) == IsControl(p)
    ensures Sanitised(p).Quote? == p.Quote?
  {
  }

  lemma {:induction false} SnapshotOfSnapshot(parts: seq<Part>)
    requires forall p :: p in parts ==> CopiedInQuotes(p)
    ensures QuoteSnapshot(parts) == parts
  {
    if parts != [] {
      assert parts[0] in parts && parts == [parts[0]] + parts[1..];
      SnapshotOfSnapshot(parts[1..]);
    }
  }

  lemma {:induction false} SanitisedStaysCopied(parts: seq<Part>)
    requires forall p :: p in parts ==> CopiedInQuotes(p)
    ensures forall p :: p in SanitisedAll(parts) ==> CopiedInQuotes(p)
  {
    if parts != [] {
      SanitisedKind(parts[0]);
      SanitisedStaysCopied(parts[1..]);
    }
  }

  /** Making a quote safe once makes it safe for good: sanitising what is sanitised changes nothing. */
  lemma {:induction false} SanitisingIsIdempotent(parts: seq<Part>)
    ensures SanitisedAll(SanitisedAll(parts)) == SanitisedAll(parts)
    decreases HeightOf(parts), |parts|
  {
    if parts != [] {
      var p := parts[0];
      assert p in parts && HeightOf(parts[1..]) <= HeightOf(parts);
      SanitisingIsIdempotent(parts[1..]);
      assert SanitisedAll(parts)[1..] == SanitisedAll(parts[1..]);
      if p.Quote? {
        SnapshotHeight(p.snapshot);
        var snapshot := QuoteSnapshot(p.snapshot);
        SanitisingIsIdempotent(snapshot);
        SanitisedStaysCopied(snapshot);
        SnapshotOfSnapshot(SanitisedAll(snapshot));
      }
    }
  }

  /** Every quote, however deep, holds only kinds that may be repeated. */
  ghost predicate SafeQuotes(p: Part)
    decreases p
  {
    p.Quote? ==> forall i :: 0 <= i < |p.snapshot| ==> CopiedInQuotes(p.snapshot[i]) && SafeQuotes(p.snapshot[i])
  }

  lemma {:induction false} SanitisedIsSafe(parts: seq<Part>)
    ensures forall i :: 0 <= i < |parts| ==> SafeQuotes(SanitisedAll(parts)[i])
    decreases HeightOf(parts), |parts|
  {
    if parts != [] {
      var p := parts[0];
      assert p in parts && HeightOf(parts[1..]) <= HeightOf(parts);
      SanitisedIsSafe(parts[1..]);
      if p.Quote? {
        SnapshotHeight(p.snapshot);
        SanitisedIsSafe(QuoteSnapshot(p.snapshot));
        SanitisedStaysCopied(QuoteSnapshot(p.snapshot));
      }
      forall i | 0 <= i < |parts|
        ensures SafeQuotes(SanitisedAll(parts)[i])
      {
        if i > 0 { assert SanitisedAll(parts)[i] == SanitisedAll(parts[1..])[i - 1]; }
      }
    }
  }
}
