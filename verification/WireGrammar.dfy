/** The fixed-shape identifiers of the wire: the regular expressions of content.ts. */
module WireGrammar {
  import opened JsText
  import opened Framing

  const HYPHEN: CodeUnit := 45

  predicate HexRun(s: JsString, lo: nat, hi: nat)
    requires lo <= hi <= |s|
  {
    forall i :: lo <= i < hi ==> IsHexDigit(s[i])
  }

  /** isWireMessageId: "dmsg_" and a lower-case UUIDv7. */
  predicate IsWireMessageId(s: JsString) {
    && |s| == 41 && s[..5] == Ascii("dmsg_")
    && HexRun(s, 5, 13) && s[13] == HYPHEN && HexRun(s, 14, 18) && s[18] == HYPHEN
    && s[19] == 55 && HexRun(s, 20, 23) && s[23] == HYPHEN
    && (s[24] == 56 || s[24] == 57 || s[24] == 97 || s[24] == 98) && HexRun(s, 25, 28) && s[28] == HYPHEN
    && HexRun(s, 29, 41)
  }

  /** FRONTIER_SIGN_HASH: "dms_" and 128 hex digits. */
  predicate IsSignHash(s: JsString) {
    |s| == 132 && s[..4] == Ascii("dms_") && HexRun(s, 4, 132)
  }

  predicate IsAvatarId(s: JsString) {
    |s| == 32 && HexRun(s, 0, 32)
  }

  predicate IsGalleryUuid(s: JsString) {
    && |s| == 36 && HexRun(s, 0, 8) && s[8] == HYPHEN && HexRun(s, 9, 13) && s[13] == HYPHEN
    && HexRun(s, 14, 18) && s[18] == HYPHEN && HexRun(s, 19, 23) && s[23] == HYPHEN && HexRun(s, 24, 36)
  }

  /** The base64 alphabet of section 4 of RFC 4648. */
  predicate IsBase64Digit(u: CodeUnit) {
    65 <= u <= 90 || 97 <= u <= 122 || 48 <= u <= 57 || u == 43 || u == 47
  }

  /** 32 bytes in unpadded base64: 43 digits, the last with its two low bits clear. */
  predicate IsGalleryKey(s: JsString) {
    |s| == 43 && (forall i :: 0 <= i < 42 ==> IsBase64Digit(s[i])) && s[42] in Ascii("AEIMQUYcgkosw048")
  }
}
