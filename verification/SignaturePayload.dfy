/** The canonical payload a row's signature covers, over the forms its columns arrive in. */
module SignaturePayload {
  import opened Prelude
  import opened JsText
  import opened Decimals
  import opened Records
  import opened Framing
  import opened Base64

  /** A column as it arrives; VNum is a number that is not an integer below 10^21, by the text it prints as. */
  datatype Column =
    | VNull
    | VBool(b: bool)
    | VInt(n: int)
    | VNum(text: JsString)
    | VText(s: JsString)
    | VBytes(bytes: Bytes)
    | VList(items: seq<Column>)

  /** What the language makes of values no column holds: pairs that are not hex, and odd conversions. */
  datatype Js = Js(pair: JsString -> Byte, number: Column -> Column, base64: Column -> Option<JsString>)

  type Fields = map<JsString, Column>

  // ---------- encodeField ----------

  predicate EndsWith(s: JsString, suffix: JsString) {
    |suffix| <= |s| && s[|s| - |suffix|..] == suffix
  }

  predicate IsBinaryKey(key: JsString) {
    EndsWith(key, Ascii("_b64")) || EndsWith(key, Ascii("_cert")) || EndsWith(key, Ascii("_pkey"))
  }

  predicate IsHashKey(key: JsString) {
    EndsWith(key, Ascii("_hash"))
  }

  const UNDERSCORE: CodeUnit := 95

  predicate IsLower(u: CodeUnit) { 97 <= u <= 122 }

  /** PREFIXED_HASH */
  predicate IsPrefixedHash(s: JsString) {
    exists i :: 0 < i < |s| - 1 && s[i] == UNDERSCORE && IsLower(s[0])
      && (forall k :: 0 <= k < i ==> IsLower(s[k]) || IsDigit(s[k])) && (forall k :: i < k < |s| ==> IsHexDigit(s[k]))
  }

  const NULL_TEXT: JsString := Ascii("null")

  function EncodeBase64Value(js: Js, v: Column): Option<JsString> {
    match v
    case VNull => Some(NULL_TEXT)
    case VText(s) => Some(if HEX_MARK <= s then ToBase64(HexBytes(s[2..], js.pair)) else PadBase64(s))
    case VBytes(bytes) => Some(ToBase64(bytes))
    case _ => js.base64(v)
  }

  /** The elements' texts, joined by nothing. */
  function JoinBase64(js: Js, items: seq<Column>): Option<JsString> {
    if items == [] then Some([])
    else match EncodeBase64Value(js, items[0])
         case None => None
         case Some(first) =>
           match JoinBase64(js, items[1..])
           case None => None
           case Some(others) => Some(first + others)
  }

  function IntText(n: int): JsString {
    if n < 0 then [MINUS] + Decimal(-n) else Decimal(n)
  }

  /** encodeField; None where it throws. */
  function EncodeField(js: Js, key: JsString, v: Column): Option<JsString> {
    if IsBinaryKey(key) then EncodeBase64Value(js, v)
    else if IsHashKey(key) then
      match v
      case VNull => Some(NULL_TEXT)
      case VText(s) => if IsPrefixedHash(s) then Some(s) else None
      case _ => None
    else match v
         case VList(items) => JoinBase64(js, items)
         case VBool(b) => Some(if b then Ascii("true") else Ascii("false"))
         case VNull => Some(NULL_TEXT)
         case VInt(n) => Some(IntText(n))
         case VNum(text) => Some(text)
         case VText(s) => Some(s)
         case VBytes(_) => js.base64(v)
  }

  // ---------- canonicalPayload ----------

  const NOT_SIGNED: set<JsString> := {Ascii("sign_b64"), Ascii("sign_hash")}

  function Self(s: JsString): JsString { s }

  /** The frames of the keys, one after the other. */
  function FramesOf(js: Js, fields: Fields, keys: seq<JsString>): Option<Bytes>
    requires forall k :: k in keys ==> k in fields
  {
    if keys == [] then Some([])
    else match EncodeField(js, keys[0], fields[keys[0]])
         case None => None
         case Some(text) =>
           match FramesOf(js, fields, keys[1..])
           case None => None
           case Some(others) => Some(Framed(Utf8(text)) + others)
  }

  /** Some order of a set of keys. */
  ghost function ListOf(keys: set<JsString>): (r: seq<JsString>)
    ensures multiset(r) == multiset(keys)
    ensures forall k :: k in r <==> k in keys
  {
    if keys == {} then []
    else
      var k :| k in keys;
      var others := ListOf(keys - {k});
      assert multiset([k] + others) == multiset{k} + multiset(others);
      assert multiset(keys) == multiset{k} + multiset(keys - {k});
      [k] + others
  }

  ghost function SortedKeys(keys: set<JsString>): (r: seq<JsString>)
    ensures forall k :: k in r <==> k in keys
  {
    SortPermutes(ListOf(keys), Self);
    assert forall k :: k in SortBy(ListOf(keys), Self) <==> k in multiset(SortBy(ListOf(keys), Self));
    assert forall k :: k in ListOf(keys) <==> k in multiset(ListOf(keys));
    SortBy(ListOf(keys), Self)
  }

  ghost function CanonicalPayload(js: Js, fields: Fields): Option<Bytes> {
    FramesOf(js, fields, SortedKeys(fields.Keys - NOT_SIGNED))
  }

  /** Sorting any list of the keys, each once, gives the same list. */
  lemma {:induction false} SortedKeysUnique(order: seq<JsString>, keys: set<JsString>)
    requires DistinctKeys(order, Self) && forall k :: k in order <==> k in keys
    ensures SortBy(order, Self) == SortedKeys(keys)
  {
    var xs, ys := SortBy(order, Self), SortedKeys(keys);
    OnceEach(ListOf(keys), keys);
    SortSorts(order, Self);
    SortSorts(ListOf(keys), Self);
    forall k
      ensures k in xs <==> k in ys
    {
      assert k in xs <==> k in multiset(xs);
      assert k in order <==> k in multiset(order);
    }
    AscendingUnique(xs, ys, Self);
  }

  /** What has been framed, with what is still to come. */
  function Rejoined(done: Bytes, rest: Option<Bytes>): Option<Bytes> {
    if rest.Some? then Some(done + rest.value) else None
  }

  /** The filter of canonicalPayload. */
  method SignedKeys(order: seq<JsString>) returns (kept: seq<JsString>)
    requires DistinctKeys(order, Self)
    ensures DistinctKeys(kept, Self) && forall k :: k in kept <==> k in order && k !in NOT_SIGNED
  {
    kept := [];
    for i := 0 to |order|
      invariant DistinctKeys(kept, Self) && forall k :: k in kept <==> k in order[..i] && k !in NOT_SIGNED
    {
      assert order[..i + 1] == order[..i] + [order[i]];
      if order[i] !in NOT_SIGNED {
        assert order[i] !in order[..i];
        kept := kept + [order[i]];
      }
    }
    assert order[..|order|] == order;
  }

  /** The chunks of the flatMap. */
  method CollectFrames(js: Js, fields: Fields, keys: seq<JsString>) returns (parts: Option<seq<Bytes>>)
    requires forall k :: k in keys ==> k in fields
    ensures parts.None? ==> FramesOf(js, fields, keys).None?
    ensures parts.Some? ==> FramesOf(js, fields, keys) == Some(Flatten(parts.value))
  {
    var done: seq<Bytes> := [];
    ghost var all := FramesOf(js, fields, keys);
    assert keys[0..] == keys;
    assert all.Some? ==> [] + all.value == all.value;
    for i := 0 to |keys|
      invariant all == Rejoined(Flatten(done), FramesOf(js, fields, keys[i..]))
    {
      assert keys[i..][0] == keys[i] && keys[i..][1..] == keys[i + 1..];
      var text := EncodeField(js, keys[i], fields[keys[i]]);
      if text.None? { return None; }
      var bytes := Utf8(text.value);
      FlattenTwo(done, U32(|bytes|), bytes);
      JoinsOn(Flatten(done), Framed(bytes), FramesOf(js, fields, keys[i + 1..]));
      done := done + [U32(|bytes|), bytes];
    }
    assert keys[|keys|..] == [] && Flatten(done) + [] == Flatten(done);
    parts := Some(done);
  }

  /** canonicalPayload: it depends on the fields alone, not on the order they were set in; None where it throws. */
  method BuildPayload(js: Js, fields: Fields, order: seq<JsString>) returns (payload: Option<Bytes>)
    requires DistinctKeys(order, Self) && forall k :: k in order <==> k in fields
    ensures payload == CanonicalPayload(js, fields)
  {
    var kept := SignedKeys(order);
    SortedKeysUnique(kept, fields.Keys - NOT_SIGNED);
    var parts := CollectFrames(js, fields, SortBy(kept, Self));
    if parts.None? { return None; }
    var out := ConcatBytes(parts.value);
    payload := Some(out[..]);
  }

  lemma {:induction false} FlattenTwo(parts: seq<Bytes>, a: Bytes, b: Bytes)
    ensures Flatten(parts + [a, b]) == Flatten(parts) + (a + b)
  {
    FlattenAppend(parts, [a, b]);
    assert [a, b][1..] == [b] && [b][1..] == [];
    assert Flatten([b]) == b;
    assert Flatten([a, b]) == a + Flatten([b]);
  }

  lemma {:induction false} JoinsOn(done: Bytes, frame: Bytes, rest: Option<Bytes>)
    ensures rest.Some? ==> done + (frame + rest.value) == (done + frame) + rest.value
  {
  }

  // ---------- injectivity ----------

  /** A field's text is short enough to frame. */
  predicate Framable(js: Js, fields: Fields, key: JsString)
    requires key in fields
  {
    EncodeField(js, key, fields[key]).Some? ==> |Utf8(EncodeField(js, key, fields[key]).value)| < TWO32
  }

  /** Two rows give one column texts with the same UTF-8. */
  predicate SameText(js: Js, f: Fields, g: Fields, k: JsString)
    requires k in f && k in g
  {
    && EncodeField(js, k, f[k]).Some? && EncodeField(js, k, g[k]).Some?
    && Utf8(EncodeField(js, k, f[k]).value) == Utf8(EncodeField(js, k, g[k]).value)
  }

  lemma {:induction false} FramesDetermineFields(js: Js, f: Fields, g: Fields, keys: seq<JsString>)
    requires forall k :: k in keys ==> k in f && k in g && Framable(js, f, k) && Framable(js, g, k)
    requires FramesOf(js, f, keys).Some? && FramesOf(js, f, keys) == FramesOf(js, g, keys)
    ensures forall k :: k in keys ==> SameText(js, f, g, k)
  {
    if keys != [] {
      var k := keys[0];
      assert k in keys;
      FramePrefix(Utf8(EncodeField(js, k, f[k]).value), Utf8(EncodeField(js, k, g[k]).value),
                  FramesOf(js, f, keys[1..]).value, FramesOf(js, g, keys[1..]).value);
      FramesDetermineFields(js, f, g, keys[1..]);
      assert forall x :: x in keys ==> x == k || x in keys[1..];
    }
  }

  /** No two rows of one relation share a payload unless every signed column encodes to the same UTF-8 text. */
  lemma {:induction false} PayloadDeterminesFields(js: Js, f: Fields, g: Fields)
    requires f.Keys == g.Keys && forall k :: k in f ==> Framable(js, f, k) && Framable(js, g, k)
    requires CanonicalPayload(js, f).Some? && CanonicalPayload(js, f) == CanonicalPayload(js, g)
    ensures forall k :: k in f && k !in NOT_SIGNED ==> SameText(js, f, g, k)
  {
    var keys := SortedKeys(f.Keys - NOT_SIGNED);
    FramesDetermineFields(js, f, g, keys);
    assert forall k :: k in f && k !in NOT_SIGNED ==> k in keys;
  }

  /** A text with no unpaired surrogate is determined by its UTF-8; the texts of binary columns are such. */
  lemma {:induction false} SameTextSameField(js: Js, f: Fields, g: Fields, k: JsString)
    requires k in f && k in g && SameText(js, f, g, k)
    requires WellFormed(EncodeField(js, k, f[k]).value) && WellFormed(EncodeField(js, k, g[k]).value)
    ensures EncodeField(js, k, f[k]) == EncodeField(js, k, g[k])
  {
    Utf8Injective(EncodeField(js, k, f[k]).value, EncodeField(js, k, g[k]).value);
  }

  // ---------- wire forms ----------

  /** The forms one binary value arrives in. */
  predicate IsFormOf(v: Column, b: Bytes) {
    || v == VBytes(b) || v == VText(ToBase64(b)) || v == VText(ToBase64Unpadded(b))
    || v == VText(HEX_MARK + BytesToHex(b))
  }

  lemma {:induction false} FormEncodes(js: Js, v: Column, b: Bytes)
    requires IsFormOf(v, b)
    ensures EncodeBase64Value(js, v) == Some(ToBase64(b))
  {
    PaddingRestored(b);
    if v == VText(HEX_MARK + BytesToHex(b)) && !(v == VText(ToBase64(b)) || v == VText(ToBase64Unpadded(b))) {
      assert (HEX_MARK + BytesToHex(b))[2..] == BytesToHex(b);
      HexBytesOfHex(b, js.pair);
    } else {
      NotHex(b);
    }
  }

  /** Base64 never begins as hex does. */
  lemma {:induction false} NotHex(b: Bytes)
    ensures !(HEX_MARK <= ToBase64(b)) && !(HEX_MARK <= ToBase64Unpadded(b))
  {
    PaddingRestored(b);
    BodyDigits(b);
    PadsBody(b);
    var body := Body(b);
    if body != [] {
      assert ToBase64(b)[0] == body[0] && body[0] != HEX_MARK[0];
    }
  }

  datatype FieldType = TextType | IntType | BoolType | BinaryType | BinariesType

  /** wireBool */
  predicate WireBool(v: Column) {
    match v
    case VBool(b) => b
    case VInt(n) => n == 1
    case VText(s) => s == Ascii("1") || s == Ascii("t") || s == Ascii("true")
    case _ => false
  }

  const MINUS: CodeUnit := 45

  predicate IsDecimal(s: JsString) {
    s != [] && AllDigits(s)
  }

  /** Number of a value, where it is plain. */
  function ToNumber(js: Js, v: Column): Column {
    if v.VInt? || v.VNum? then v
    else if v.VText? && IsDecimal(v.s) then VInt(Value(v.s))
    else if v.VText? && v.s != [] && v.s[0] == MINUS && IsDecimal(v.s[1..]) then VInt(0 - Value(v.s[1..]))
    else js.number(v)
  }

  lemma {:induction false} IntTextIsRead(js: Js, n: int)
    ensures ToNumber(js, VText(IntText(n))) == VInt(n)
  {
    if n < 0 {
      var s := IntText(n);
      assert s[0] == MINUS && s[1..] == Decimal(-n) && !IsDigit(s[0]);
    }
  }

  function Coerce(js: Js, v: Column, t: FieldType): Column {
    if v.VNull? then VNull
    else match t
         case BoolType => VBool(WireBool(v))
         case IntType => ToNumber(js, v)
         case _ => v
  }

  type Schema = map<JsString, FieldType>

  /** The columns of a relation, coerced; None when one is absent. */
  function SignableFields(js: Js, schema: Schema, row: Fields): Option<Fields> {
    if schema.Keys <= row.Keys then Some(map k | k in schema :: Coerce(js, row[k], schema[k])) else None
  }

  /** signableFields, column by column. */
  method BuildSignable(js: Js, schema: seq<Entry<FieldType>>, row: Fields) returns (out: Option<Fields>)
    requires Distinct(schema)
    ensures out == SignableFields(js, RecordOf(schema), row)
  {
    RecordHas(schema);
    ghost var types := RecordOf(schema);
    var fields: Fields := map[];
    for i := 0 to |schema|
      invariant forall j :: 0 <= j < i ==> schema[j].key in row && schema[j].key in fields
      invariant forall k :: k in fields ==> k in types && k in row && fields[k] == Coerce(js, row[k], types[k])
    {
      var key := schema[i].key;
      assert key in types && types[key] == schema[i].value;
      if key !in row { return None; }
      fields := fields[key := Coerce(js, row[key], schema[i].value)];
    }
    assert forall k :: k in types ==> k in fields;
    assert fields == map k | k in types :: Coerce(js, row[k], types[k]);
    out := Some(fields);
  }

  /** One column as two transports hand it over. */
  ghost predicate SameColumn(key: JsString, t: FieldType, v: Column, w: Column) {
    || v == w
    || (t == BinaryType && IsBinaryKey(key) && SameForm(v, w))
    || (t == BinariesType && !IsBinaryKey(key) && !IsHashKey(key) && SameList(v, w))
    || (t == BoolType && !v.VNull? && !w.VNull? && (v in TRUE_FORMS <==> w in TRUE_FORMS))
    || (t == IntType && exists n :: IsIntForm(v, n) && IsIntForm(w, n))
  }

  /** The forms a true arrives in; whatever else a column holds is false, but for null. */
  const TRUE_FORMS: set<Column> :=
    {VBool(true), VInt(1), VText(Ascii("1")), VText(Ascii("t")), VText(Ascii("true"))}

  lemma {:induction false} BoolIsRead(js: Js, v: Column)
    requires !v.VNull?
    ensures Coerce(js, v, BoolType) == VBool(v in TRUE_FORMS)
  {
  }

  /** Null stays null, an integer is read from its digits, and texts, bytes and lists are taken as they come. */
  lemma {:induction false} OthersAreRead(js: Js, v: Column, t: FieldType, n: int)
    ensures Coerce(js, VNull, t) == VNull
    ensures v == VInt(n) || v == VText(IntText(n)) ==> Coerce(js, v, IntType) == VInt(n)
    ensures t == TextType || t == BinaryType || t == BinariesType ==> Coerce(js, v, t) == v
  {
    IntTextIsRead(js, n);
  }

  predicate IsIntForm(v: Column, n: int) {
    v == VInt(n) || v == VText(IntText(n))
  }

  ghost predicate SameList(v: Column, w: Column) {
    && v.VList? && w.VList? && |v.items| == |w.items|
    && forall i :: 0 <= i < |v.items| ==> SameForm(v.items[i], w.items[i])
  }

  /** Two forms of one binary value. */
  ghost predicate SameForm(v: Column, w: Column) {
    exists b :: IsFormOf(v, b) && IsFormOf(w, b)
  }

  lemma {:induction false} SameListJoins(js: Js, v: seq<Column>, w: seq<Column>)
    requires |v| == |w| && forall i :: 0 <= i < |v| ==> SameForm(v[i], w[i])
    ensures JoinBase64(js, v) == JoinBase64(js, w)
  {
    if v != [] {
      var b :| IsFormOf(v[0], b) && IsFormOf(w[0], b);
      FormEncodes(js, v[0], b);
      FormEncodes(js, w[0], b);
      SameListJoins(js, v[1..], w[1..]);
    }
  }

  lemma {:induction false} SameColumnSameField(js: Js, key: JsString, t: FieldType, v: Column, w: Column)
    requires SameColumn(key, t, v, w)
    ensures EncodeField(js, key, Coerce(js, v, t)) == EncodeField(js, key, Coerce(js, w, t))
  {
    if v == w {
    } else if t == BinaryType {
      var b :| IsFormOf(v, b) && IsFormOf(w, b);
      FormEncodes(js, v, b);
      FormEncodes(js, w, b);
    } else if t == BinariesType {
      SameListJoins(js, v.items, w.items);
    } else if t == BoolType {
      BoolIsRead(js, v);
      BoolIsRead(js, w);
    } else if t == IntType {
      var n :| IsIntForm(v, n) && IsIntForm(w, n);
      IntTextIsRead(js, n);
      assert Coerce(js, v, t) == VInt(n) && Coerce(js, w, t) == VInt(n);
    }
  }

  lemma {:induction false} SameFieldsSameFrames(js: Js, f: Fields, g: Fields, keys: seq<JsString>)
    requires forall k :: k in keys ==> k in f && k in g && EncodeField(js, k, f[k]) == EncodeField(js, k, g[k])
    ensures FramesOf(js, f, keys) == FramesOf(js, g, keys)
  {
    if keys != [] {
      assert keys[0] in keys;
      SameFieldsSameFrames(js, f, g, keys[1..]);
    }
  }

  /** A row's payload is the same whatever forms its columns arrive in. */
  lemma {:induction false} PayloadForgetsForms(js: Js, schema: Schema, row: Fields, row': Fields)
    requires forall k :: k in schema ==> k in row && k in row' && SameColumn(k, schema[k], row[k], row'[k])
    ensures SignableFields(js, schema, row).Some? && SignableFields(js, schema, row').Some?
    ensures CanonicalPayload(js, SignableFields(js, schema, row).value) == CanonicalPayload(js, SignableFields(js, schema, row').value)
  {
    var f, g := SignableFields(js, schema, row).value, SignableFields(js, schema, row').value;
    assert f.Keys == schema.Keys && g.Keys == schema.Keys;
    forall k | k in schema
      ensures EncodeField(js, k, f[k]) == EncodeField(js, k, g[k])
    {
      SameColumnSameField(js, k, schema[k], row[k], row'[k]);
    }
    SameFieldsSameFrames(js, f, g, SortedKeys(f.Keys - NOT_SIGNED));
  }

  /** Equal texts of a binary column are of equal bytes. */
  lemma {:induction false} BinaryFieldDetermined(js: Js, key: JsString, v: Column, w: Column, a: Bytes, b: Bytes)
    requires IsBinaryKey(key) && IsFormOf(v, a) && IsFormOf(w, b)
    ensures EncodeField(js, key, v) == EncodeField(js, key, w) <==> a == b
  {
    FormEncodes(js, v, a);
    FormEncodes(js, w, b);
    if ToBase64(a) == ToBase64(b) {
      Base64Injective(a, b);
    }
  }

  const LOOKS_NULL: Bytes := [0x9E, 0xE9, 0x65]

  lemma {:induction false} NullTextOfBytes()
    ensures ToBase64(LOOKS_NULL) == NULL_TEXT && NULL_TEXT == [110, 117, 108, 108]
  {
    assert LOOKS_NULL[3..] == [];
  }

  /** A missing binary column has the text of three bytes, and of no others. */
  lemma {:induction false} NullIsThreeBytes(js: Js, key: JsString, v: Column, b: Bytes)
    requires IsBinaryKey(key) && IsFormOf(v, b)
    ensures EncodeField(js, key, v) == EncodeField(js, key, VNull) <==> b == LOOKS_NULL
  {
    FormEncodes(js, v, b);
    NullTextOfBytes();
    if ToBase64(b) == NULL_TEXT {
      Base64Injective(b, LOOKS_NULL);
    }
  }

  // ---------- deriveSignHash ----------

  /** toBytes; None where it throws. */
  function ToBytes(js: Js, v: Column): Option<Bytes> {
    match v
    case VBytes(bytes) => Some(bytes)
    case VText(s) => if HEX_MARK <= s then Some(HexBytes(s[2..], js.pair)) else FromBase64(s)
    case _ => None
  }

  function DeriveSignHash(h: Hasher, js: Js, prefix: JsString, sign: Column): Option<JsString> {
    match ToBytes(js, sign) case None => None case Some(bytes) => Some(prefix + BytesToHex(h(bytes)))
  }

  lemma {:induction false} FormBytes(js: Js, v: Column, b: Bytes)
    requires IsFormOf(v, b)
    ensures ToBytes(js, v) == Some(b)
  {
    Base64RoundTrip(b);
    if v == VText(HEX_MARK + BytesToHex(b)) && !(v == VText(ToBase64(b)) || v == VText(ToBase64Unpadded(b))) {
      assert (HEX_MARK + BytesToHex(b))[2..] == BytesToHex(b);
      HexBytesOfHex(b, js.pair);
    } else {
      NotHex(b);
    }
  }

  /** A version's identity is its signature's, in whatever form that came: two with one hash are one, or collide. */
  lemma {:induction false} SignHashBinds(h: Hasher, js: Js, prefix: JsString, v: Column, w: Column, a: Bytes, b: Bytes)
    requires IsFormOf(v, a) && IsFormOf(w, b)
    ensures DeriveSignHash(h, js, prefix, v) == Some(prefix + BytesToHex(h(a)))
    ensures DeriveSignHash(h, js, prefix, v) == DeriveSignHash(h, js, prefix, w) ==> a == b || Collide(h, {a}, {b})
  {
    FormBytes(js, v, a);
    FormBytes(js, w, b);
    if DeriveSignHash(h, js, prefix, v) == DeriveSignHash(h, js, prefix, w) {
      assert (prefix + BytesToHex(h(a)))[|prefix|..] == BytesToHex(h(a));
      assert (prefix + BytesToHex(h(b)))[|prefix|..] == BytesToHex(h(b));
      HexInjective(h(a), h(b));
    }
  }
}
