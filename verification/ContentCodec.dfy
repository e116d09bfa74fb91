/** Parts to wire JSON and back. */
module ContentCodec {
  import opened Prelude
  import opened JsText
  import opened WireGrammar
  import opened ContentParts

  // ---------- encoding ----------

  /** What JSON.stringify makes of a number. */
  function NumToJson(n: Num): Json {
    if n.Finite? then JNum(n.r) else JNull
  }

  function Strings(texts: seq<JsString>): (r: Json)
    ensures r.JArr? && |r.items| == |texts| && forall i :: 0 <= i < |texts| ==> r.items[i] == JStr(texts[i])
  {
    JArr(seq(|texts|, i requires 0 <= i < |texts| => JStr(texts[i])))
  }

  function RestOf(rest: Rest): seq<Json> {
    if rest.Some? then rest.value else []
  }

  /** A one-key object. */
  function Envelope(typeName: JsString, items: seq<Json>): Json {
    JObj(map[typeName := JArr(items)])
  }

  function MediaItems(m: Media): (r: seq<Json>)
    ensures |r| == 7
  {
    [NumToJson(m.widthAspect), NumToJson(m.heightAspect), JStr(m.thumbHash), JStr(m.name), NumToJson(m.size),
     JStr(m.mimeType), NumToJson(m.createdAt)]
  }

  function NodeSetToJson(s: NodeSet): Json {
    JArr([NumToJson(s.threshold), Strings(s.nodes)])
  }

  /** withNodeSet */
  function WithNodeSet(nodeSet: Option<NodeSet>, rest: Rest): seq<Json> {
    if nodeSet.Some? then [NodeSetToJson(nodeSet.value)] + RestOf(rest)
    else if RestOf(rest) != [] then [JNull] + RestOf(rest)
    else []
  }

  function FrontierToJson(frontier: map<JsString, JsString>): Json {
    JObj(map m | m in frontier :: JStr(frontier[m]))
  }

  /** durationSeconds || 0 */
  function OrZero(n: Num): Num {
    if n.NaN? then Finite(0.0) else n
  }

  /** The positions an array of the part's type starts with; None where encodePart throws. */
  function Known(p: Part): Option<seq<Json>>
    requires !p.Text? && !p.Quote? && !p.Avatar? && !p.Unknown?
  {
    match p
    case File(name, size, mimeType, createdAt, fileId, encSecret, _) =>
      Some([JStr(name), NumToJson(size), JStr(mimeType), NumToJson(createdAt), JStr(fileId), JStr(encSecret)])
    case Image(media, fileId, encSecret, _) => Some(MediaItems(media) + [JStr(fileId), JStr(encSecret)])
    case InlineImage(media, data, _) => Some(MediaItems(media) + [JStr(data)])
    case Video(media, duration, fileId, encSecret, _) =>
      Some(MediaItems(media) + [NumToJson(OrZero(duration)), JStr(fileId), JStr(encSecret)])
    case AvatarRemoved(avatarId, _) => Some([JStr(avatarId)])
    case GalleryAccess(version, uuid, key, _) =>
      if version != Finite(1.0) || !IsGalleryUuid(uuid) || !IsGalleryKey(key) then None
      else Some([NumToJson(version), JStr(uuid), JStr(key)])
    case Checkpoint(version, reducer, tree, frontierRoot, viewRoot, frontier, createdAt, _) =>
      Some([NumToJson(version), JStr(reducer), JStr(tree), JStr(frontierRoot), JStr(viewRoot),
            FrontierToJson(frontier), NumToJson(createdAt)])
    case RecoveryShare(secretRef, version, threshold, total, share, createdAt, splitId, shareIndex, splitProof, _, _) =>
      Some([JStr(secretRef), NumToJson(version), NumToJson(threshold), NumToJson(total), JStr(share),
            NumToJson(createdAt), JStr(splitId), NumToJson(shareIndex), Strings(splitProof)])
    case RecoveryShareReturn(secretRef, version, splitId, threshold, total, shareIndex, round, candidate, share, createdAt,
                             splitProof, _, _) =>
      Some([JStr(secretRef), NumToJson(version), JStr(splitId), NumToJson(threshold), NumToJson(total), NumToJson(shareIndex),
            NumToJson(round), JStr(candidate), JStr(share), NumToJson(createdAt), Strings(splitProof)])
    case RecoveryHolding(secretRef, version, splitId, shareIndex, state, detail, _) =>
      Some([JStr(secretRef), NumToJson(version), JStr(splitId), NumToJson(shareIndex), JStr(state), JStr(detail)])
    case RecoveryBinding(secretRef, candidate, userHash, signature, _) =>
      Some([JStr(secretRef), JStr(candidate), JStr(userHash), JStr(signature)])
    case RecoveryInvite(inviteId, deployment, _) => Some([JStr(inviteId), JStr(deployment)])
    case RecoveryInviteReply(inviteId, answer, metaAddress, proof, _) =>
      Some([JStr(inviteId), JStr(answer), JStr(metaAddress), JStr(proof)])
  }

  /** What follows them. */
  function Tail(p: Part): seq<Json>
    requires !p.Text? && !p.Unknown?
  {
    match p
    case RecoveryShare(_, _, _, _, _, _, _, _, _, nodeSet, rest) => WithNodeSet(nodeSet, rest)
    case RecoveryShareReturn(_, _, _, _, _, _, _, _, _, _, _, nodeSet, rest) => WithNodeSet(nodeSet, rest)
    case _ => RestOf(p.rest)
  }

  function TypeOf(p: Part): JsString
    requires !p.Text?
  {
    match p
    case Quote(_, _, _, _, _) => QUOTE
    case File(_, _, _, _, _, _, _) => FILE
    case Image(_, _, _, _) => IMAGE
    case InlineImage(_, _, _) => INLINE_IMAGE
    case Video(_, _, _, _, _) => VIDEO
    case Avatar(_, _, _) => AVATAR
    case AvatarRemoved(_, _) => AVATAR_REMOVED
    case GalleryAccess(_, _, _, _) => GALLERY_ACCESS
    case Checkpoint(_, _, _, _, _, _, _, _) => CHECKPOINT
    case RecoveryShare(_, _, _, _, _, _, _, _, _, _, _) => RECOVERY_SHARE
    case RecoveryShareReturn(_, _, _, _, _, _, _, _, _, _, _, _, _) => RECOVERY_SHARE_RETURN
    case RecoveryHolding(_, _, _, _, _, _, _) => RECOVERY_HOLDING
    case RecoveryBinding(_, _, _, _, _) => RECOVERY_BINDING
    case RecoveryInvite(_, _, _) => RECOVERY_INVITE
    case RecoveryInviteReply(_, _, _, _, _) => RECOVERY_INVITE_REPLY
    case Unknown(typeName, _) => typeName
  }

  /** encodePart; None where it throws. */
  function EncodePart(p: Part): Option<Json>
    decreases Height(p), 0, 0
  {
    match p
    case Text(text) => Some(JStr(text))
    case Unknown(typeName, value) => Some(JObj(map[typeName := value]))
    case Quote(authorHash, messageId, signHash, snapshot, rest) =>
      SnapshotHeight(snapshot);
      (match EncodeValue(QuoteSnapshot(snapshot))
       case None => None
       case Some(value) => Some(Envelope(QUOTE, [JStr(authorHash), JStr(messageId), JStr(signHash), value] + RestOf(rest))))
    case Avatar(avatarId, photo, rest) =>
      (match EncodePart(photo)
       case None => None
       case Some(value) => Some(Envelope(AVATAR, [JStr(avatarId), value] + RestOf(rest))))
    case _ =>
      match Known(p)
      case None => None
      case Some(known) => Some(Envelope(TypeOf(p), known + Tail(p)))
  }

  /** parts.map(encodePart) */
  function EncodeAll(parts: seq<Part>): (r: Option<seq<Json>>)
    ensures r.Some? ==> |r.value| == |parts|
    decreases HeightOf(parts), 1, |parts|
  {
    if parts == [] then Some([])
    else
      assert parts[0] in parts;
      match EncodePart(parts[0])
      case None => None
      case Some(first) =>
        match EncodeAll(parts[1..])
        case None => None
        case Some(others) => Some([first] + others)
  }

  /** A list is refused exactly when one of its parts is; else it holds every part, in order. */
  lemma {:induction false} EncodedEach(parts: seq<Part>)
    ensures EncodeAll(parts).Some? <==> forall i :: 0 <= i < |parts| ==> EncodePart(parts[i]).Some?
    ensures EncodeAll(parts).Some? ==> forall i :: 0 <= i < |parts| ==> Some(EncodeAll(parts).value[i]) == EncodePart(parts[i])
  {
    if parts != [] {
      var rest := parts[1..];
      EncodedEach(rest);
      assert forall i :: 0 <= i < |rest| ==> rest[i] == parts[i + 1];
      assert forall i :: 0 < i < |parts| ==> parts[i] == rest[i - 1];
    }
  }

  function EncodeValue(parts: seq<Part>): Option<Json>
    decreases HeightOf(parts), 2, |parts|
  {
    if |parts| == 1 then
      assert parts[0] in parts;
      EncodePart(parts[0])
    else match EncodeAll(parts)
         case None => None
         case Some(items) => Some(JArr(items))
  }

  /** encodeContent, before JSON.stringify. */
  function EncodeContent(parts: seq<Part>): Option<Json> {
    if parts == [] then Some(JStr([])) else EncodeValue(parts)
  }

  // ---------- decoding ----------

  /** Number and String of a value where they are not plain: any functions, throwing where None. */
  datatype Coercions = Coercions(number: Json -> Option<Num>, text: Json -> Option<JsString>)

  function ToNum(c: Coercions, j: Json): Option<Num> {
    match j
    case JNum(n) => Some(Finite(n))
    case JNull => Some(Finite(0.0))
    case JBool(b) => Some(Finite(if b then 1.0 else 0.0))
    case _ => c.number(j)
  }

  function ToText(c: Coercions, j: Json): Option<JsString> {
    if j.JStr? then Some(j.s) else c.text(j)
  }

  /** Number(x) || 1 */
  function OrOne(n: Num): Num {
    if n.NaN? || n == Finite(0.0) then Finite(1.0) else n
  }

  /** Math.max(0, Math.round(x)) || 0 */
  function WholeSeconds(n: Num): Num {
    match n
    case Finite(r) => var whole := (r + 0.5).Floor; Finite(if whole < 0 then 0.0 else whole as real)
    case NaN => Finite(0.0)
    case Infinite(negative) => if negative then Finite(0.0) else n
  }

  function TailOf(items: seq<Json>, known: nat): Rest {
    if |items| > known then Some(items[known..]) else None
  }

  /** mediaHead, on the array of a picture long enough to be one. */
  function DecodeMedia(c: Coercions, im: seq<Json>): Option<Media>
    requires |im| >= 7
  {
    var w, h, thumb := ToNum(c, im[0]), ToNum(c, im[1]), if im[2].JNull? then Some([]) else ToText(c, im[2]);
    var name, size, mime, at := ToText(c, im[3]), ToNum(c, im[4]), ToText(c, im[5]), ToNum(c, im[6]);
    if w.Some? && h.Some? && thumb.Some? && name.Some? && size.Some? && mime.Some? && at.Some? then
      Some(Media(OrOne(w.value), OrOne(h.value), thumb.value, name.value, size.value, mime.value, at.value))
    else None
  }

  predicate IsInt(j: Json) {
    j.JNum? && j.n.Floor as real == j.n
  }

  predicate AllStrings(items: seq<Json>) {
    forall i :: 0 <= i < |items| ==> items[i].JStr?
  }

  function TextsOf(items: seq<Json>): (r: seq<JsString>)
    requires AllStrings(items)
    ensures |r| == |items|
  {
    seq(|items|, i requires 0 <= i < |items| => items[i].s)
  }

  /** head: the leading fields have the types the letters spell. */
  predicate Head(items: seq<Json>, letters: string) {
    |items| >= |letters| && forall i :: 0 <= i < |letters| ==>
      match letters[i]
      case 's' => items[i].JStr?
      case 'i' => IsInt(items[i])
      case _ => items[i].JNum?
  }

  /** shareTail's answer: the proof, the node set and what follows. */
  datatype ShareTail = ShareTail(splitProof: seq<JsString>, nodeSet: Option<NodeSet>, rest: Rest)

  function NodeSetFromJson(j: Json): Option<NodeSet> {
    if j.JArr? && |j.items| == 2 && IsInt(j.items[0]) && j.items[1].JArr? && AllStrings(j.items[1].items) then
      Some(NodeSet(Finite(j.items[0].n), TextsOf(j.items[1].items)))
    else None
  }

  function DecodeShareTail(items: seq<Json>, at: nat): Option<ShareTail> {
    var proof := if at < |items| then items[at] else JNull;
    var wire := if at + 1 < |items| then items[at + 1] else JNull;
    if !proof.JNull? && !(proof.JArr? && AllStrings(proof.items)) then None
    else
      var nodeSet := if wire.JNull? then None else NodeSetFromJson(wire);
      if !wire.JNull? && nodeSet.None? then None
      else Some(ShareTail(if proof.JNull? then [] else TextsOf(proof.items), nodeSet, TailOf(items, at + 2)))
  }

  /** The frontier of a checkpoint, held to the wire grammar entry by entry. */
  predicate IsFrontier(fields: map<JsString, Json>) {
    forall m :: m in fields ==> IsWireMessageId(m) && fields[m].JStr? && IsSignHash(fields[m].s)
  }

  /** A typed envelope with an array; None where decodeValue throws. The quote and the avatar recurse elsewhere. */
  function DecodeEnvelope(c: Coercions, t: JsString, r: seq<Json>): Option<Part>
    requires t != QUOTE && t != AVATAR
  {
    if t == GALLERY_ACCESS then
      if |r| >= 3 && r[0] == JNum(1.0) && r[1].JStr? && IsGalleryUuid(r[1].s) && r[2].JStr? && IsGalleryKey(r[2].s) then
        Some(GalleryAccess(Finite(1.0), r[1].s, r[2].s, TailOf(r, 3)))
      else Some(Unknown(t, JArr(r)))
    else if t == AVATAR_REMOVED then
      if |r| >= 1 && r[0].JStr? && IsAvatarId(r[0].s) then Some(AvatarRemoved(r[0].s, TailOf(r, 1)))
      else Some(Unknown(t, JArr(r)))
    else if t == INLINE_IMAGE then
      if |r| < 8 || !r[7].JStr? then None
      else match DecodeMedia(c, r) case None => None case Some(media) => Some(InlineImage(media, r[7].s, TailOf(r, 8)))
    else if t == VIDEO then
      if |r| < 10 || !r[8].JStr? || !r[9].JStr? then None
      else (match DecodeMedia(c, r)
            case None => None
            case Some(media) =>
              match ToNum(c, r[7])
              case None => None
              case Some(n) => Some(Video(media, WholeSeconds(n), r[8].s, r[9].s, TailOf(r, 10))))
    else if t == IMAGE then
      if |r| < 9 || !r[7].JStr? || !r[8].JStr? then None
      else match DecodeMedia(c, r) case None => None case Some(media) => Some(Image(media, r[7].s, r[8].s, TailOf(r, 9)))
    else if t == CHECKPOINT then DecodeCheckpoint(c, r)
    else if t == FILE then DecodeFile(c, r)
    else DecodeRecovery(t, r)
  }

  function DecodeCheckpoint(c: Coercions, r: seq<Json>): Option<Part> {
    if |r| < 7 || !r[3].JStr? || !r[4].JStr? || !r[5].JObj? || !IsFrontier(r[5].fields) then None
    else
      var version, reducer, tree, at := ToNum(c, r[0]), ToText(c, r[1]), ToText(c, r[2]), ToNum(c, r[6]);
      if version.Some? && reducer.Some? && tree.Some? && at.Some? then
        Some(Checkpoint(version.value, reducer.value, tree.value, r[3].s, r[4].s,
                        map m | m in r[5].fields :: r[5].fields[m].s, at.value, TailOf(r, 7)))
      else None
  }

  function DecodeFile(c: Coercions, r: seq<Json>): Option<Part> {
    if |r| < 6 || !r[4].JStr? || !r[5].JStr? then None
    else
      var name, size, mime, at := ToText(c, r[0]), ToNum(c, r[1]), ToText(c, r[2]), ToNum(c, r[3]);
      if name.Some? && size.Some? && mime.Some? && at.Some? then
        Some(File(name.value, size.value, mime.value, at.value, r[4].s, r[5].s, TailOf(r, 6)))
      else None
  }

  function DecodeRecovery(t: JsString, r: seq<Json>): Option<Part> {
    if t == RECOVERY_SHARE then
      if !Head(r, "siiisnsi") then None
      else (match DecodeShareTail(r, 8)
            case None => None
            case Some(tail) =>
              Some(RecoveryShare(r[0].s, Finite(r[1].n), Finite(r[2].n), Finite(r[3].n), r[4].s, Finite(r[5].n), r[6].s,
                                 Finite(r[7].n), tail.splitProof, tail.nodeSet, tail.rest)))
    else if t == RECOVERY_SHARE_RETURN then
      if !Head(r, "sisiiiissn") then None
      else (match DecodeShareTail(r, 10)
            case None => None
            case Some(tail) =>
              Some(RecoveryShareReturn(r[0].s, Finite(r[1].n), r[2].s, Finite(r[3].n), Finite(r[4].n), Finite(r[5].n),
                                       Finite(r[6].n), r[7].s, r[8].s, Finite(r[9].n), tail.splitProof, tail.nodeSet, tail.rest)))
    else if t == RECOVERY_BINDING then
      if !Head(r, "ssss") then None
      else Some(RecoveryBinding(r[0].s, r[1].s, r[2].s, r[3].s, TailOf(r, 4)))
    else if t == RECOVERY_HOLDING then
      if !Head(r, "sisiss") then None
      else Some(RecoveryHolding(r[0].s, Finite(r[1].n), r[2].s, Finite(r[3].n), r[4].s, r[5].s, TailOf(r, 6)))
    else if t == RECOVERY_INVITE then
      if !Head(r, "ss") then None else Some(RecoveryInvite(r[0].s, r[1].s, TailOf(r, 2)))
    else if t == RECOVERY_INVITE_REPLY then
      if !Head(r, "ssss") then None
      else Some(RecoveryInviteReply(r[0].s, r[1].s, r[2].s, r[3].s, TailOf(r, 4)))
    else Some(Unknown(t, JArr(r)))
  }

  /** A type whose value has to be an array, or decoding throws. */
  predicate NeedsArray(t: JsString) {
    || t == QUOTE || t == INLINE_IMAGE || t == IMAGE || t == VIDEO || t == CHECKPOINT || t == FILE
    || t == RECOVERY_SHARE || t == RECOVERY_SHARE_RETURN || t == RECOVERY_BINDING || t == RECOVERY_HOLDING
    || t == RECOVERY_INVITE || t == RECOVERY_INVITE_REPLY
  }

  const TYPE := Ascii("type")
  const TEXT := Ascii("text")

  /** decodeValue; None where it throws. */
  function DecodeValue(c: Coercions, j: Json): Option<seq<Part>>
    decreases j, 1
  {
    match j
    case JStr(s) => Some([Text(s)])
    case JArr(items) => DecodeAll(c, items)
    case JObj(fields) =>
      if TYPE in fields && fields[TYPE] == JStr(TEXT) && TEXT in fields && fields[TEXT].JStr? then Some([Text(fields[TEXT].s)])
      else if |fields| == 1 then
        var t :| t in fields;
        OnlyKey(fields, t);
        DecodeTyped(c, t, fields[t])
      else None
    case _ => None
  }

  /** value.flatMap(decodeValue) */
  function DecodeAll(c: Coercions, items: seq<Json>): Option<seq<Part>>
    decreases items, 0
  {
    if items == [] then Some([])
    else match DecodeValue(c, items[0])
         case None => None
         case Some(first) =>
           match DecodeAll(c, items[1..])
           case None => None
           case Some(others) => Some(first + others)
  }

  /** The value of a one-key object by its type. */
  function DecodeTyped(c: Coercions, t: JsString, value: Json): Option<seq<Part>>
    decreases value, 0
  {
    if !value.JArr? then
      if NeedsArray(t) then None else Some([Unknown(t, value)])
    else if t == QUOTE then
      var q := value.items;
      if |q| < 4 || !q[0].JStr? || !q[1].JStr? || !q[2].JStr? then None
      else (match DecodeValue(c, q[3])
            case None => None
            case Some(snapshot) => Some([Quote(q[0].s, q[1].s, q[2].s, snapshot, TailOf(q, 4))]))
    else if t == AVATAR then
      var r := value.items;
      var photo := if |r| >= 2 && r[0].JStr? && IsAvatarId(r[0].s) then PhotoFromWire(c, r[1]) else None;
      if photo.None? then Some([Unknown(t, value)])
      else Some([Avatar(r[0].s, photo.value, TailOf(r, 2))])
    else match DecodeEnvelope(c, t, value.items)
         case None => None
         case Some(p) => Some([p])
  }

  /** photoFromWire */
  function PhotoFromWire(c: Coercions, wire: Json): (r: Option<Part>)
    ensures r.Some? ==> r.value.Image? || r.value.InlineImage?
    decreases wire, 2
  {
    if !wire.JObj? then None
    else
      var parts := DecodeValue(c, wire);
      if parts.Some? && |parts.value| == 1 && (parts.value[0].Image? || parts.value[0].InlineImage?) then Some(parts.value[0])
      else None
  }

  lemma {:induction false} OnlyKey<V>(fields: map<JsString, V>, t: JsString)
    requires |fields| == 1 && t in fields
    ensures forall k :: k in fields ==> k == t
  {
    var others := fields.Keys - {t};
    assert |others| == 0;
    assert forall k :: k in fields ==> k in others || k == t;
  }
}
