/** Base64 (section 4 of RFC 4648) as btoa and atob give it, its padding, and the hex of a binary column. */
module Base64 {
  import opened Prelude
  import opened JsText
  import opened Framing
  import opened WireGrammar

  const PAD: CodeUnit := 61

  function Digit(n: nat): (u: CodeUnit)
    requires n < 64
    ensures IsBase64Digit(u)
  {
    if n < 26 then 65 + n else if n < 52 then 71 + n else if n < 62 then n - 4 else if n == 62 then 43 else 47
  }

  function DigitValue(u: CodeUnit): (n: nat)
    ensures n < 64
    ensures IsBase64Digit(u) ==> Digit(n) == u
  {
    if 65 <= u <= 90 then u - 65 else if 97 <= u <= 122 then u - 71 else if 48 <= u <= 57 then u + 4
    else if u == 43 then 62 else 63
  }

  lemma {:induction false} DigitRoundTrip(n: nat)
    requires n < 64
    ensures IsBase64Digit(Digit(n)) && DigitValue(Digit(n)) == n
  {
  }

  /** btoa */
  function ToBase64(b: Bytes): (r: JsString)
    ensures |r| % 4 == 0
  {
    if b == [] then []
    else if |b| == 1 then [Digit(b[0] / 4), Digit(b[0] % 4 * 16), PAD, PAD]
    else if |b| == 2 then [Digit(b[0] / 4), Digit(b[0] % 4 * 16 + b[1] / 16), Digit(b[1] % 16 * 4), PAD]
    else Quad(b[0], b[1], b[2]) + ToBase64(b[3..])
  }

  function Quad(x: Byte, y: Byte, z: Byte): (r: JsString)
    ensures |r| == 4
  {
    [Digit(x / 4), Digit(x % 4 * 16 + y / 16), Digit(y % 16 * 4 + z / 64), Digit(z % 64)]
  }

  /** .replace(/=+$/, '') */
  function StripPad(s: JsString): JsString {
    if s != [] && s[|s| - 1] == PAD then StripPad(s[..|s| - 1]) else s
  }

  function ToBase64Unpadded(b: Bytes): JsString {
    StripPad(ToBase64(b))
  }

  function PadCount(n: nat): (r: nat)
    ensures (n + r) % 4 == 0 && r < 4
    ensures n % 4 == 0 ==> r == 0
    ensures n % 4 == 2 ==> r == 2
    ensures n % 4 == 3 ==> r == 1
  {
    (4 - n % 4) % 4
  }

  /** padBase64 */
  function PadBase64(s: JsString): JsString {
    s + seq(PadCount(|s|), _ => PAD)
  }

  /** The digits of a text, without its padding. */
  function Body(b: Bytes): JsString {
    if b == [] then []
    else if |b| == 1 then [Digit(b[0] / 4), Digit(b[0] % 4 * 16)]
    else if |b| == 2 then [Digit(b[0] / 4), Digit(b[0] % 4 * 16 + b[1] / 16), Digit(b[1] % 16 * 4)]
    else Quad(b[0], b[1], b[2]) + Body(b[3..])
  }

  lemma {:induction false} BodyDigits(b: Bytes)
    ensures AllDigits64(Body(b))
  {
    if |b| > 2 {
      BodyDigits(b[3..]);
    }
  }

  lemma {:induction false} BodyLength(b: Bytes)
    ensures |Body(b)| % 4 == if |b| % 3 == 0 then 0 else |b| % 3 + 1
  {
    if |b| > 2 {
      BodyLength(b[3..]);
      BodyStep(|b[3..]|, |Body(b[3..])|);
      assert |b| == |b[3..]| + 3 && |Body(b)| == |Body(b[3..])| + 4;
    }
  }

  lemma {:induction false} BodyStep(n: nat, m: nat)
    requires m % 4 == if n % 3 == 0 then 0 else n % 3 + 1
    ensures (m + 4) % 4 == if (n + 3) % 3 == 0 then 0 else (n + 3) % 3 + 1
  {
  }

  lemma {:induction false} PadsBody(b: Bytes)
    ensures ToBase64(b) == PadBase64(Body(b))
  {
    if |b| > 2 {
      PadsBody(b[3..]);
      PadAfterQuad(Quad(b[0], b[1], b[2]), Body(b[3..]));
    }
  }

  lemma {:induction false} PadAfterQuad(q: JsString, s: JsString)
    requires |q| == 4
    ensures PadBase64(q + s) == q + PadBase64(s)
  {
    assert |q + s| == |s| + 4;
    assert PadCount(|q + s|) == PadCount(|s|);
  }

  lemma {:induction false} StripsPad(s: JsString, n: nat)
    requires s == [] || s[|s| - 1] != PAD
    ensures StripPad(s + seq(n, _ => PAD)) == s
  {
    if n > 0 {
      StripsPad(s, n - 1);
      assert (s + seq(n, _ => PAD))[..|s| + n - 1] == s + seq(n - 1, _ => PAD);
    } else {
      assert s + seq(0, _ => PAD) == s;
    }
  }

  /** Padding is restored to a text that lost it, and added to none that has it. */
  lemma {:induction false} PaddingRestored(b: Bytes)
    ensures ToBase64Unpadded(b) == Body(b)
    ensures PadBase64(ToBase64Unpadded(b)) == ToBase64(b)
    ensures PadBase64(ToBase64(b)) == ToBase64(b)
  {
    BodyDigits(b);
    PadsBody(b);
    StripsPad(Body(b), PadCount(|Body(b)|));
  }

  /** Table 1 of RFC 4648. */
  lemma {:induction false} DigitIsInTable(n: nat)
    requires n < 64
    ensures n < 26 ==> Digit(n) == 'A' as int + n
    ensures 26 <= n < 52 ==> Digit(n) == 'a' as int + (n - 26)
    ensures 52 <= n < 62 ==> Digit(n) == '0' as int + (n - 52)
    ensures n == 62 ==> Digit(n) == '+' as int
    ensures n == 63 ==> Digit(n) == '/' as int
  {
  }

  /** Three bytes and the four digits that stand for them are one number. */
  lemma {:induction false} QuadIsNumber(x: Byte, y: Byte, z: Byte)
    ensures var q := Quad(x, y, z);
            ((DigitValue(q[0]) * 64 + DigitValue(q[1])) * 64 + DigitValue(q[2])) * 64 + DigitValue(q[3]) == (x * 256 + y) * 256 + z
  {
    DigitRoundTrip(x / 4);
    DigitRoundTrip(x % 4 * 16 + y / 16);
    DigitRoundTrip(y % 16 * 4 + z / 64);
    DigitRoundTrip(z % 64);
  }

  // ---------- atob ----------

  predicate AllDigits64(s: JsString) {
    forall i :: 0 <= i < |s| ==> IsBase64Digit(s[i])
  }

  function DecodeBody(s: JsString): Bytes {
    if |s| < 2 then []
    else
      var a, b := DigitValue(s[0]), DigitValue(s[1]);
      if |s| == 2 then [a * 4 + b / 16]
      else
        var c := DigitValue(s[2]);
        if |s| == 3 then [a * 4 + b / 16, b % 16 * 16 + c / 4]
        else
          [a * 4 + b / 16, b % 16 * 16 + c / 4, c % 4 * 64 + DigitValue(s[3])] + DecodeBody(s[4..])
  }

  predicate IsAsciiSpace(u: CodeUnit) {
    u == 9 || u == 10 || u == 12 || u == 13 || u == 32
  }

  function WithoutSpaces(s: JsString): JsString {
    if s == [] then [] else (if IsAsciiSpace(s[0]) then [] else [s[0]]) + WithoutSpaces(s[1..])
  }

  /** One or two pads that complete a quadruple. */
  function Unpad(s: JsString): JsString {
    if s == [] || |s| % 4 != 0 || s[|s| - 1] != PAD then s
    else if s[|s| - 2] == PAD then s[..|s| - 2] else s[..|s| - 1]
  }

  /** atob; None where it throws. */
  function Atob(s: JsString): Option<Bytes> {
    var t := Unpad(WithoutSpaces(s));
    if |t| % 4 == 1 || !AllDigits64(t) then None else Some(DecodeBody(t))
  }

  function FromBase64(s: JsString): Option<Bytes> {
    Atob(PadBase64(s))
  }

  lemma {:induction false} NoSpaces(s: JsString)
    requires forall i :: 0 <= i < |s| ==> IsBase64Digit(s[i]) || s[i] == PAD
    ensures WithoutSpaces(s) == s
  {
    if s != [] {
      NoSpaces(s[1..]);
    }
  }

  lemma {:induction false} QuadDecodes(x: Byte, y: Byte, z: Byte, rest: JsString)
    ensures DecodeBody(Quad(x, y, z) + rest) == [x, y, z] + DecodeBody(rest)
  {
    var s := Quad(x, y, z) + rest;
    DigitRoundTrip(x / 4);
    DigitRoundTrip(x % 4 * 16 + y / 16);
    DigitRoundTrip(y % 16 * 4 + z / 64);
    DigitRoundTrip(z % 64);
    assert s[4..] == rest && |s| >= 4;
    assert s[0] == Digit(x / 4) && s[1] == Digit(x % 4 * 16 + y / 16) && s[2] == Digit(y % 16 * 4 + z / 64) && s[3] == Digit(z % 64);
    QuadBits(x, y, z);
  }

  lemma {:induction false} QuadBits(x: Byte, y: Byte, z: Byte)
    ensures x / 4 * 4 + (x % 4 * 16 + y / 16) / 16 == x
    ensures (x % 4 * 16 + y / 16) % 16 * 16 + (y % 16 * 4 + z / 64) / 4 == y
    ensures (y % 16 * 4 + z / 64) % 4 * 64 + z % 64 == z
  {
  }

  lemma {:induction false} BodyDecodes(b: Bytes)
    ensures DecodeBody(Body(b)) == b
  {
    if |b| == 1 {
      DigitRoundTrip(b[0] / 4);
      DigitRoundTrip(b[0] % 4 * 16);
    } else if |b| == 2 {
      TwoDecode(b[0], b[1]);
      assert b == [b[0], b[1]];
    } else if |b| > 2 {
      BodyDecodes(b[3..]);
      QuadDecodes(b[0], b[1], b[2], Body(b[3..]));
      assert b == [b[0], b[1], b[2]] + b[3..];
    }
  }

  lemma {:induction false} TwoDecode(x: Byte, y: Byte)
    ensures DecodeBody([Digit(x / 4), Digit(x % 4 * 16 + y / 16), Digit(y % 16 * 4)]) == [x, y]
  {
    DigitRoundTrip(x / 4);
    DigitRoundTrip(x % 4 * 16 + y / 16);
    DigitRoundTrip(y % 16 * 4);
    QuadBits(x, y, 0);
  }

  /** Padding completes a quadruple with no pad, one or two. */
  lemma {:induction false} PadCases(s: JsString)
    requires |s| % 4 != 1
    ensures |PadBase64(s)| % 4 == 0
    ensures PadBase64(s) == s || PadBase64(s) == s + [PAD] || PadBase64(s) == s + [PAD, PAD]
  {
    var r := PadCount(|s|);
    assert |PadBase64(s)| == |s| + r;
    if r == 0 {
      assert PadBase64(s) == s;
    } else if r == 2 {
      assert PadBase64(s) == s + [PAD, PAD];
    } else {
      assert PadBase64(s) == s + [PAD];
    }
  }

  lemma {:induction false} UnpadsTo(s: JsString, p: JsString)
    requires AllDigits64(s) && |p| % 4 == 0 && (p == s || p == s + [PAD] || p == s + [PAD, PAD])
    ensures Unpad(p) == s
  {
    if p == s + [PAD] {
      assert p[..|s|] == s && p[|s|] == PAD && p[|s| - 1] == s[|s| - 1];
    } else if p == s + [PAD, PAD] {
      assert p[..|s|] == s && p[|s|] == p[|s| + 1] == PAD;
    }
  }

  lemma {:induction false} AtobPadded(s: JsString)
    requires AllDigits64(s) && |s| % 4 != 1
    ensures FromBase64(s) == Some(DecodeBody(s))
  {
    PadCases(s);
    NoSpaces(PadBase64(s));
    UnpadsTo(s, PadBase64(s));
  }

  /** What was written in base64 is read back, padded or not. */
  lemma {:induction false} Base64RoundTrip(b: Bytes)
    ensures FromBase64(ToBase64(b)) == Some(b) && FromBase64(ToBase64Unpadded(b)) == Some(b)
  {
    PaddingRestored(b);
    PadsBody(b);
    BodyDigits(b);
    BodyLength(b);
    AtobPadded(Body(b));
    BodyDecodes(b);
  }

  lemma {:induction false} Base64Injective(a: Bytes, b: Bytes)
    requires ToBase64(a) == ToBase64(b)
    ensures a == b
  {
    Base64RoundTrip(a);
    Base64RoundTrip(b);
  }

  // ---------- hex ----------

  const HEX_MARK: JsString := [92, 120]

  function HexDigitValue(u: CodeUnit): Option<nat> {
    if 48 <= u < 58 then Some(u - 48) else if 97 <= u < 103 then Some(u - 87) else if 65 <= u < 71 then Some(u - 55) else None
  }

  /** parseInt of two units, stored in a byte; other is what it makes of anything but two hex digits. */
  function PairByte(x: CodeUnit, y: CodeUnit, other: JsString -> Byte): (b: Byte) {
    if HexDigitValue(x).Some? && HexDigitValue(y).Some? then
      assert HexDigitValue(x).value < 16 && HexDigitValue(y).value < 16;
      HexDigitValue(x).value * 16 + HexDigitValue(y).value
    else other([x, y])
  }

  function HexBytes(s: JsString, other: JsString -> Byte): (r: Bytes)
    ensures |r| == |s| / 2
  {
    seq(|s| / 2, k requires 0 <= k < |s| / 2 => PairByte(s[2 * k], s[2 * k + 1], other))
  }

  /** fromHex; a last single digit is written past the end, which does nothing. */
  method FromHex(hex: JsString, other: JsString -> Byte) returns (out: array<Byte>)
    ensures fresh(out) && out[..] == HexBytes(hex, other)
  {
    out := new Byte[|hex| / 2](_ => 0);
    var i := 0;
    while i < |hex|
      invariant i % 2 == 0 && 0 <= i <= |hex| + 1
      invariant i / 2 <= out.Length + 1 && forall k :: 0 <= k < i / 2 && k < out.Length ==> out[k] == HexBytes(hex, other)[k]
    {
      if i / 2 < out.Length {
        out[i / 2] := PairByte(hex[i], hex[i + 1], other);
      }
      i := i + 2;
    }
  }

  lemma {:induction false} HexBytesOfHex(b: Bytes, other: JsString -> Byte)
    ensures HexBytes(BytesToHex(b), other) == b
  {
    forall k | 0 <= k < |b|
      ensures HexBytes(BytesToHex(b), other)[k] == b[k]
    {
      HexPair(b, k);
      HexPairByte(b[k], other);
    }
  }

  lemma {:induction false} HexPairByte(x: Byte, other: JsString -> Byte)
    ensures PairByte(HexDigit(x / 16), HexDigit(x % 16), other) == x
  {
  }

  lemma {:induction false} HexPair(b: Bytes, k: nat)
    requires k < |b|
    ensures BytesToHex(b)[2 * k] == HexDigit(b[k] / 16) && BytesToHex(b)[2 * k + 1] == HexDigit(b[k] % 16)
  {
    if k > 0 {
      HexPair(b[1..], k - 1);
    }
  }
}
