/** What a signed payload tells of the values in a row: two rows share one exactly when their values read alike. */
module SignedValues {
  import opened Prelude
  import opened JsText
  import opened Decimals
  import opened Framing
  import opened Base64
  import opened Base64Lists
  import opened SignaturePayload

  /** What a coerced column holds. */
  datatype Value =
    | Absent
    | Truth(b: bool)
    | Whole(n: int)
    | Word(s: JsString)
    | Binary(bytes: Bytes)
    | Binaries(list: seq<Bytes>)

  /** The value of a column of this name and type. */
  ghost predicate Means(key: JsString, t: FieldType, v: Column, m: Value) {
    match m
    case Absent => v == VNull
    case Truth(b) => t == BoolType && v == VBool(b)
    case Whole(n) => t == IntType && v == VInt(n)
    case Word(s) => t == TextType && v == VText(s) && WellFormed(s) && (IsHashKey(key) ==> IsPrefixedHash(s))
    case Binary(b) => t == BinaryType && IsFormOf(v, b)
    case Binaries(bs) => t == BinariesType && v.VList? && |v.items| == |bs| && forall i :: 0 <= i < |bs| ==> IsFormOf(v.items[i], bs[i])
  }

  /** The suffixes of the wire: binary columns are those named so, and hashes are texts. */
  predicate Conventional(key: JsString, t: FieldType) {
    (t == BinaryType <==> IsBinaryKey(key)) && (IsHashKey(key) && t != BinaryType ==> t == TextType)
  }

  lemma {:induction false} SuffixedEnds(stem: JsString, suffix: JsString)
    ensures EndsWith(stem + suffix, suffix)
  {
    assert (stem + suffix)[|stem|..] == suffix;
  }

  lemma {:induction false} LastOf(key: JsString, suffix: JsString)
    requires key != [] && suffix != []
    ensures EndsWith(key, suffix) ==> key[|key| - 1] == suffix[|suffix| - 1]
  {
    if EndsWith(key, suffix) {
      assert key[|key| - |suffix|..][|suffix| - 1] == key[|key| - 1];
    }
  }

  /** Columns named with a suffix follow the convention with the type it stands for, and those that end in no such letter
      with any other type. */
  lemma {:induction false} NamesConventional(stem: JsString, t: FieldType)
    requires t != BinaryType
    ensures Conventional(stem + Ascii("_b64"), BinaryType) && Conventional(stem + Ascii("_cert"), BinaryType)
    ensures Conventional(stem + Ascii("_pkey"), BinaryType)
    ensures Conventional(stem + Ascii("_hash"), TextType) && IsHashKey(stem + Ascii("_hash"))
    ensures stem != [] && stem[|stem| - 1] !in {'4' as int, 't' as int, 'y' as int, 'h' as int} ==> Conventional(stem, t)
  {
    SuffixedEnds(stem, Ascii("_b64"));
    SuffixedEnds(stem, Ascii("_cert"));
    SuffixedEnds(stem, Ascii("_pkey"));
    SuffixedEnds(stem, Ascii("_hash"));
    NotBinary(stem + Ascii("_hash"));
    if stem != [] {
      NotBinary(stem);
      LastOf(stem, Ascii("_hash"));
    }
  }

  lemma {:induction false} NotBinary(key: JsString)
    requires key != []
    ensures key[|key| - 1] !in {'4' as int, 't' as int, 'y' as int} ==> !IsBinaryKey(key)
  {
    LastOf(key, Ascii("_b64"));
    LastOf(key, Ascii("_cert"));
    LastOf(key, Ascii("_pkey"));
  }

  // ---------- the text of each value ----------

  function TextOf(m: Value): JsString {
    match m
    case Absent => NULL_TEXT
    case Truth(b) => if b then Ascii("true") else Ascii("false")
    case Whole(n) => IntText(n)
    case Word(s) => s
    case Binary(b) => ToBase64(b)
    case Binaries(bs) => Joined(bs)
  }

  lemma {:induction false} ListText(js: Js, items: seq<Column>, bs: seq<Bytes>)
    requires |items| == |bs| && forall i :: 0 <= i < |bs| ==> IsFormOf(items[i], bs[i])
    ensures JoinBase64(js, items) == Some(Joined(bs))
  {
    if items != [] {
      FormEncodes(js, items[0], bs[0]);
      ListText(js, items[1..], bs[1..]);
    }
  }

  lemma {:induction false} FieldText(js: Js, key: JsString, t: FieldType, v: Column, m: Value)
    requires Conventional(key, t) && Means(key, t, v, m)
    ensures EncodeField(js, key, v) == Some(TextOf(m))
  {
    match m
    case Binary(b) => FormEncodes(js, v, b);
    case Binaries(bs) => ListText(js, v.items, bs);
    case _ =>
  }

  // ---------- the texts tell the values ----------

  lemma {:induction false} IntTextShape(n: int)
    ensures IntText(n) != [] && (IntText(n)[0] == MINUS || IsDigit(IntText(n)[0])) && IsAscii(IntText(n))
  {
    var digits := Decimal(if n < 0 then -n else n);
    assert forall i :: 0 <= i < |digits| ==> IsDigit(digits[i]);
  }

  lemma {:induction false} IntTextsApart(js: Js, n: int, m: int)
    requires IntText(n) == IntText(m)
    ensures n == m
  {
    IntTextIsRead(js, n);
    IntTextIsRead(js, m);
  }

  lemma {:induction false} NullTextIs()
    ensures NULL_TEXT == ToBase64(LOOKS_NULL) && NULL_TEXT == [110, 117, 108, 108] && Joined([LOOKS_NULL]) == NULL_TEXT
    ensures Merged([LOOKS_NULL]) == [LOOKS_NULL]
  {
    NullTextOfBytes();
    assert [LOOKS_NULL][1..] == [] && NULL_TEXT + [] == NULL_TEXT;
  }

  lemma {:induction false} HashIsNotNull(s: JsString)
    requires IsPrefixedHash(s)
    ensures s != NULL_TEXT && IsAscii(s)
  {
    var i :| 0 < i < |s| - 1 && s[i] == UNDERSCORE && IsLower(s[0])
      && (forall k :: 0 <= k < i ==> IsLower(s[k]) || IsDigit(s[k])) && (forall k :: i < k < |s| ==> IsHexDigit(s[k]));
    NullTextIs();
    forall k | 0 <= k < |s|
      ensures s[k] < 0x80
    {
      assert k < i || k == i || k > i;
    }
  }

  /** A missing value reads as the text "null", and as the bytes that base64 writes so. */
  predicate ReadsAsNull(key: JsString, t: FieldType, m: Value) {
    || m == Absent || (m == Word(NULL_TEXT) && !IsHashKey(key)) || m == Binary(LOOKS_NULL)
    || (m.Binaries? && Merged(m.list) == [LOOKS_NULL])
  }

  lemma {:induction false} NullTextMeans(js: Js, key: JsString, t: FieldType, v: Column, m: Value)
    requires Conventional(key, t) && Means(key, t, v, m)
    ensures TextOf(m) == NULL_TEXT <==> ReadsAsNull(key, t, m)
  {
    NullTextIs();
    match m
    case Absent =>
    case Truth(b) => assert Ascii("true")[0] == 116 && Ascii("false")[0] == 102;
    case Whole(n) => IntTextShape(n);
    case Word(s) => if IsHashKey(key) { HashIsNotNull(s); }
    case Binary(b) => if ToBase64(b) == NULL_TEXT { Base64Injective(b, LOOKS_NULL); }
    case Binaries(bs) => JoinedSameIff(bs, [LOOKS_NULL]);
  }

  /** Two values of one column that the payload does not tell apart: equal ones, lists that differ only in where elements of
      whole triples end, and a missing value and one that reads as null. */
  predicate ReadAlike(key: JsString, t: FieldType, m: Value, m': Value) {
    || m == m'
    || (m.Binaries? && m'.Binaries? && Merged(m.list) == Merged(m'.list))
    || (m == Absent && ReadsAsNull(key, t, m')) || (m' == Absent && ReadsAsNull(key, t, m))
  }

  lemma {:induction false} TextsSameIff(js: Js, key: JsString, t: FieldType, v: Column, m: Value, v': Column, m': Value)
    requires Conventional(key, t) && Means(key, t, v, m) && Means(key, t, v', m')
    ensures TextOf(m) == TextOf(m') <==> ReadAlike(key, t, m, m')
  {
    NullTextMeans(js, key, t, v, m);
    NullTextMeans(js, key, t, v', m');
    if m.Truth? && m'.Truth? {
      assert Ascii("true")[0] == 116 && Ascii("false")[0] == 102;
    } else if m.Whole? && m'.Whole? {
      if TextOf(m) == TextOf(m') { IntTextsApart(js, m.n, m'.n); }
    } else if m.Binary? && m'.Binary? {
      if TextOf(m) == TextOf(m') { Base64Injective(m.bytes, m'.bytes); }
    } else if m.Binaries? && m'.Binaries? {
      JoinedSameIff(m.list, m'.list);
    }
  }

  // ---------- the texts are well formed ----------

  lemma {:induction false} Base64IsAscii(b: Bytes)
    ensures IsAscii(ToBase64(b))
  {
    BodyDigits(b);
    PadsBody(b);
  }

  lemma {:induction false} JoinedIsAscii(bs: seq<Bytes>)
    ensures IsAscii(Joined(bs))
  {
    if bs != [] {
      Base64IsAscii(bs[0]);
      JoinedIsAscii(bs[1..]);
    }
  }

  lemma {:induction false} TextIsWellFormed(key: JsString, t: FieldType, v: Column, m: Value)
    requires Means(key, t, v, m)
    ensures WellFormed(TextOf(m))
  {
    if !m.Word? {
      match m {
        case Whole(n) => IntTextShape(n);
        case Binary(b) => Base64IsAscii(b);
        case Binaries(bs) => JoinedIsAscii(bs);
        case _ =>
      }
      Utf8OfAscii(TextOf(m));
    }
  }

  // ---------- the payload ----------

  /** The values of a row of this schema. */
  ghost predicate RowMeans(schema: Schema, f: Fields, values: map<JsString, Value>) {
    && f.Keys == schema.Keys && values.Keys == schema.Keys
    && forall k :: k in schema ==> Conventional(k, schema[k]) && Means(k, schema[k], f[k], values[k])
  }

  lemma {:induction false} FieldSameIff(js: Js, schema: Schema, f: Fields, g: Fields, m: map<JsString, Value>, m': map<JsString, Value>, k: JsString)
    requires RowMeans(schema, f, m) && RowMeans(schema, g, m') && k in schema
    ensures EncodeField(js, k, f[k]).Some? && EncodeField(js, k, g[k]).Some?
    ensures SameText(js, f, g, k) <==> ReadAlike(k, schema[k], m[k], m'[k])
    ensures SameText(js, f, g, k) <==> EncodeField(js, k, f[k]) == EncodeField(js, k, g[k])
  {
    FieldText(js, k, schema[k], f[k], m[k]);
    FieldText(js, k, schema[k], g[k], m'[k]);
    TextIsWellFormed(k, schema[k], f[k], m[k]);
    TextIsWellFormed(k, schema[k], g[k], m'[k]);
    TextsSameIff(js, k, schema[k], f[k], m[k], g[k], m'[k]);
    if SameText(js, f, g, k) {
      SameTextSameField(js, f, g, k);
    }
  }

  lemma {:induction false} FramesExist(js: Js, fields: Fields, keys: seq<JsString>)
    requires forall k :: k in keys ==> k in fields && EncodeField(js, k, fields[k]).Some?
    ensures FramesOf(js, fields, keys).Some?
  {
    if keys != [] {
      assert keys[0] in keys;
      FramesExist(js, fields, keys[1..]);
    }
  }

  /** The signature itself, and what derives from it, are the only columns not signed. */
  predicate Signed(key: JsString) {
    key != Ascii("sign_b64") && key != Ascii("sign_hash")
  }

  lemma {:induction false} SignedIs(key: JsString)
    ensures Signed(key) <==> key !in NOT_SIGNED
  {
  }

  ghost predicate ReadAlikeRows(schema: Schema, m: map<JsString, Value>, m': map<JsString, Value>)
    requires m.Keys == schema.Keys && m'.Keys == schema.Keys
  {
    forall k :: k in schema && Signed(k) ==> ReadAlike(k, schema[k], m[k], m'[k])
  }

  lemma {:induction false} AlikeRowsSamePayload(js: Js, schema: Schema, f: Fields, g: Fields, m: map<JsString, Value>, m': map<JsString, Value>)
    requires RowMeans(schema, f, m) && RowMeans(schema, g, m')
    ensures CanonicalPayload(js, f).Some? && CanonicalPayload(js, g).Some?
    ensures ReadAlikeRows(schema, m, m') ==> CanonicalPayload(js, f) == CanonicalPayload(js, g)
  {
    var keys := SortedKeys(schema.Keys - NOT_SIGNED);
    forall k | k in keys
      ensures EncodeField(js, k, f[k]).Some? && EncodeField(js, k, g[k]).Some?
      ensures ReadAlikeRows(schema, m, m') ==> EncodeField(js, k, f[k]) == EncodeField(js, k, g[k])
    {
      SignedIs(k);
      FieldSameIff(js, schema, f, g, m, m', k);
    }
    FramesExist(js, f, keys);
    FramesExist(js, g, keys);
    if ReadAlikeRows(schema, m, m') {
      SameFieldsSameFrames(js, f, g, keys);
    }
  }

  /** Two rows of one schema share a payload exactly when every signed column reads alike in both. */
  lemma {:induction false} PayloadTellsValues(js: Js, schema: Schema, f: Fields, g: Fields, m: map<JsString, Value>, m': map<JsString, Value>)
    requires RowMeans(schema, f, m) && RowMeans(schema, g, m')
    requires forall k :: k in schema ==> Framable(js, f, k) && Framable(js, g, k)
    ensures CanonicalPayload(js, f).Some? && CanonicalPayload(js, g).Some?
    ensures CanonicalPayload(js, f) == CanonicalPayload(js, g) <==> ReadAlikeRows(schema, m, m')
  {
    AlikeRowsSamePayload(js, schema, f, g, m, m');
    if CanonicalPayload(js, f) == CanonicalPayload(js, g) {
      PayloadDeterminesFields(js, f, g);
      forall k | k in schema && Signed(k)
        ensures ReadAlike(k, schema[k], m[k], m'[k])
      {
        SignedIs(k);
        FieldSameIff(js, schema, f, g, m, m', k);
      }
    }
  }

  /** A hash column holds a prefixed hash, signed as it is, or nothing; anything else, an empty text too, is refused. */
  lemma {:induction false} HashFieldIsHash(js: Js, key: JsString, v: Column)
    requires IsHashKey(key) && !IsBinaryKey(key)
    ensures EncodeField(js, key, v).Some? <==> v == VNull || (v.VText? && IsPrefixedHash(v.s))
    ensures v.VText? && IsPrefixedHash(v.s) ==> v.s != [] && EncodeField(js, key, v) == Some(v.s)
    ensures EncodeField(js, key, VNull) == Some(NULL_TEXT)
  {
  }

  /** What deriveSignHash gives is a hash as the payload of later rows takes it. */
  lemma {:induction false} SignHashIsPrefixed(h: Hasher, js: Js, stem: JsString, sign: Column)
    requires stem != [] && IsLower(stem[0]) && forall i :: 0 <= i < |stem| ==> IsLower(stem[i]) || IsDigit(stem[i])
    requires DeriveSignHash(h, js, stem + [UNDERSCORE], sign).Some?
    ensures IsPrefixedHash(DeriveSignHash(h, js, stem + [UNDERSCORE], sign).value)
  {
    var hex := BytesToHex(h(ToBytes(js, sign).value));
    HexRoundTrip(h(ToBytes(js, sign).value));
    var s := (stem + [UNDERSCORE]) + hex;
    assert s[|stem|] == UNDERSCORE && s[0] == stem[0] && forall k :: |stem| < k < |s| ==> s[k] == hex[k - |stem| - 1];
  }

  /** A column that is neither binary nor a hash is signed as its text, and no two texts alike. */
  lemma {:induction false} TextFieldIsItself(js: Js, key: JsString, s: JsString, s': JsString)
    requires !IsBinaryKey(key) && !IsHashKey(key)
    ensures EncodeField(js, key, VText(s)) == Some(s)
    ensures EncodeField(js, key, VText(s)) == EncodeField(js, key, VText(s')) <==> s == s'
  {
  }
}
