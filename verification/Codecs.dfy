/** The text encodings in signed requests: hex, decimal, UUID text (section 4 of RFC 9562) and padded
    base64 (section 4 of RFC 4648). */
module Codecs {
  import opened Core
  import opened Tso

  /** Visible ASCII without the comma: such text survives in one field of the header. */
  predicate Token(s: string) {
    forall c :: c in s ==> '!' <= c <= '~' && c != ','
  }

  // ----- Hex ---------------------------------------------------------------------------------------

  function HexDigit(n: nat): char
    requires n < 16
  {
    if n < 10 then (48 + n) as char else (87 + n) as char
  }

  /** Either case is read. */
  function HexValue(c: char): Option<nat> {
    if '0' <= c <= '9' then Some(c as int - 48)
    else if 'a' <= c <= 'f' then Some(c as int - 87)
    else if 'A' <= c <= 'F' then Some(c as int - 55)
    else None
  }

  lemma HexDigitReads(n: nat)
    requires n < 16
    ensures HexValue(HexDigit(n)) == Some(n) && Token([HexDigit(n)])
  {
  }

  function Hex(bytes: seq<Byte>): string {
    if bytes == [] then "" else [HexDigit(bytes[0] / 16), HexDigit(bytes[0] % 16)] + Hex(bytes[1..])
  }

  lemma {:induction false} HexAppends(bytes: seq<Byte>, b: Byte)
    ensures Hex(bytes + [b]) == Hex(bytes) + [HexDigit(b / 16), HexDigit(b % 16)]
  {
    if bytes != [] {
      HexAppends(bytes[1..], b);
      assert (bytes + [b])[1..] == bytes[1..] + [b];
    }
  }

  method HexEncode(bytes: seq<Byte>) returns (out: string)
    ensures out == Hex(bytes)
  {
    var digits := "0123456789abcdef";
    assert forall n: nat :: n < 16 ==> digits[n] == HexDigit(n);
    out := "";
    for i := 0 to |bytes|
      invariant out == Hex(bytes[..i])
    {
      out := out + [digits[bytes[i] / 16]];
      out := out + [digits[bytes[i] % 16]];
      HexAppends(bytes[..i], bytes[i]);
      assert bytes[..i + 1] == bytes[..i] + [bytes[i]];
    }
    assert bytes[..|bytes|] == bytes;
  }

  lemma {:induction false} HexIsToken(bytes: seq<Byte>)
    ensures Token(Hex(bytes)) && |Hex(bytes)| == 2 * |bytes|
  {
    if bytes != [] {
      HexIsToken(bytes[1..]);
      HexDigitReads(bytes[0] / 16);
      HexDigitReads(bytes[0] % 16);
    }
  }

  /** Different bytes never have the same hex text. */
  lemma {:induction false} HexIsInjective(a: seq<Byte>, b: seq<Byte>)
    requires Hex(a) == Hex(b)
    ensures a == b
  {
    HexIsToken(a);
    HexIsToken(b);
    if a != [] {
      HexDigitReads(a[0] / 16);
      HexDigitReads(a[0] % 16);
      HexDigitReads(b[0] / 16);
      HexDigitReads(b[0] % 16);
      assert Hex(a)[0] == Hex(b)[0] && Hex(a)[1] == Hex(b)[1];
      assert Hex(a)[2..] == Hex(a[1..]) && Hex(b)[2..] == Hex(b[1..]);
      HexIsInjective(a[1..], b[1..]);
      assert a == [a[0]] + a[1..] && b == [b[0]] + b[1..];
    }
  }

  /** Two lower-case digits a byte, the high half first. */
  lemma {:induction false} HexAt(bytes: seq<Byte>, i: nat)
    requires i < |bytes|
    ensures |Hex(bytes)| == 2 * |bytes|
    ensures Hex(bytes)[2 * i] == "0123456789abcdef"[bytes[i] / 16]
    ensures Hex(bytes)[2 * i + 1] == "0123456789abcdef"[bytes[i] % 16]
  {
    HexIsToken(bytes);
    var text := Hex(bytes);
    assert text[2..] == Hex(bytes[1..]);
    if i == 0 {
      DigitsAre(bytes[0] / 16);
      DigitsAre(bytes[0] % 16);
    } else {
      HexAt(bytes[1..], i - 1);
      assert text[2..][2 * (i - 1)] == text[2 * i] && text[2..][2 * (i - 1) + 1] == text[2 * i + 1];
    }
  }

  lemma DigitsAre(n: nat)
    requires n < 16
    ensures HexDigit(n) == "0123456789abcdef"[n]
  {
  }

  /** A digit is read in either case. */
  lemma HexValueIff(c: char, n: nat)
    requires n < 16
    ensures HexValue(c) == Some(n) <==> c == "0123456789abcdef"[n] || c == "0123456789ABCDEF"[n]
    ensures HexValue(c).Some? ==> HexValue(c).value < 16
  {
  }

  // ----- Decimal -----------------------------------------------------------------------------------

  predicate AllDigits(s: string) {
    forall i :: 0 <= i < |s| ==> '0' <= s[i] <= '9'
  }

  function Decimal(n: nat): string {
    if n < 10 then [(48 + n) as char] else Decimal(n / 10) + [(48 + n % 10) as char]
  }

  function DigitsValue(s: string): nat
    requires AllDigits(s)
  {
    if s == "" then 0 else DigitsValue(s[..|s| - 1]) * 10 + (s[|s| - 1] as int - 48)
  }

  /** `str::parse::<u64>`: one leading plus sign is allowed, the empty text and overflow are refused. */
  function ParseU64(s: string): Option<U64> {
    var digits := if s != "" && s[0] == '+' then s[1..] else s;
    if digits == "" || !AllDigits(digits) || DigitsValue(digits) >= U64_LIMIT then None
    else Some(DigitsValue(digits))
  }

  lemma {:induction false} DecimalDigits(n: nat)
    ensures Decimal(n) != "" && AllDigits(Decimal(n)) && DigitsValue(Decimal(n)) == n
  {
    if n >= 10 {
      DecimalDigits(n / 10);
      assert Decimal(n)[..|Decimal(n)| - 1] == Decimal(n / 10);
    }
  }

  /** A printed timestamp is read back. */
  lemma DecimalParses(n: U64)
    ensures ParseU64(Decimal(n)) == Some(n) && Token(Decimal(n))
  {
    DecimalDigits(n);
    assert Decimal(n)[0] in Decimal(n);
  }

  predicate Zeros(s: string) {
    forall i :: 0 <= i < |s| ==> s[i] == '0'
  }

  lemma DigitLast(init: string, c: char)
    requires AllDigits(init) && '0' <= c <= '9'
    ensures AllDigits(init + [c]) && DigitsValue(init + [c]) == DigitsValue(init) * 10 + (c as int - 48)
    ensures Decimal(DigitsValue(init + [c])) == (if DigitsValue(init) == 0 then "" else Decimal(DigitsValue(init))) + [c]
  {
    var s := init + [c];
    assert s[..|s| - 1] == init;
  }

  /** Digits are the decimal text of their value behind some zeros. */
  lemma {:induction false} DigitsAreDecimal(s: string) returns (zeros: string)
    requires s != "" && AllDigits(s)
    ensures Zeros(zeros) && s == zeros + Decimal(DigitsValue(s))
    decreases |s|
  {
    hide Decimal, DigitsValue;
    var init, c := s[..|s| - 1], s[|s| - 1];
    assert s == init + [c];
    DigitLast(init, c);
    if init == "" {
      NoDigits();
      zeros := "";
    } else {
      zeros := DigitsAreDecimal(init);
      if DigitsValue(init) == 0 {
        NoDigits();
        zeros := init;
      }
    }
  }

  lemma NoDigits()
    ensures DigitsValue("") == 0 && Decimal(0) == "0"
  {
  }

  lemma {:induction false} ZerosBefore(zeros: string, s: string)
    requires Zeros(zeros) && AllDigits(s)
    ensures AllDigits(zeros + s) && DigitsValue(zeros + s) == DigitsValue(s)
    decreases |zeros| + |s|
  {
    var whole := zeros + s;
    if s == "" {
      assert whole == zeros;
      if zeros != "" {
        ZerosBefore(zeros[..|zeros| - 1], "");
        assert zeros[..|zeros| - 1] + "" == zeros[..|zeros| - 1];
      }
    } else {
      ZerosBefore(zeros, s[..|s| - 1]);
      assert whole[..|whole| - 1] == zeros + s[..|s| - 1];
    }
  }

  lemma ReadsZerosBefore(zeros: string, n: U64)
    requires Zeros(zeros)
    ensures ParseU64(zeros + Decimal(n)) == Some(n) && ParseU64("+" + zeros + Decimal(n)) == Some(n)
  {
    DecimalDigits(n);
    hide Decimal, DigitsValue;
    var digits := zeros + Decimal(n);
    ZerosBefore(zeros, Decimal(n));
    assert "+" + zeros + Decimal(n) == "+" + digits;
    assert ("+" + digits)[1..] == digits;
  }

  /** A number is read exactly from its decimal text, behind any zeros and at most one plus sign. */
  lemma ParseU64Iff(s: string, n: U64)
    ensures ParseU64(s) == Some(n) <==>
            exists zeros :: Zeros(zeros) && (s == zeros + Decimal(n) || s == "+" + zeros + Decimal(n))
  {
    hide Decimal, DigitsValue;
    if ParseU64(s) == Some(n) {
      var digits := if s[0] == '+' then s[1..] else s;
      var zeros := DigitsAreDecimal(digits);
      assert s[0] == '+' ==> s == "+" + zeros + Decimal(n);
    }
    hide ParseU64;
    forall zeros | Zeros(zeros) && (s == zeros + Decimal(n) || s == "+" + zeros + Decimal(n))
      ensures ParseU64(s) == Some(n)
    {
      ReadsZerosBefore(zeros, n);
    }
  }

  /** A printed number has no leading zero but in "0". */
  lemma {:induction false} DecimalStarts(n: nat)
    ensures Decimal(n)[0] == '0' <==> n == 0
    ensures n == 0 ==> Decimal(n) == "0"
  {
    DecimalDigits(n);
    if n >= 10 {
      DecimalStarts(n / 10);
    }
  }

  // ----- UUID text ---------------------------------------------------------------------------------

  function Pow16(k: nat): nat {
    if k == 0 then 1 else 16 * Pow16(k - 1)
  }

  predicate AllHex(s: string) {
    forall c :: c in s ==> HexValue(c).Some?
  }

  function HexNumber(s: string): nat
    requires AllHex(s)
  {
    if s == "" then 0 else HexNumber(s[..|s| - 1]) * 16 + HexValue(s[|s| - 1]).value
  }

  lemma {:induction false} HexNumberBound(s: string)
    requires AllHex(s)
    ensures HexNumber(s) < Pow16(|s|)
  {
    if s != "" {
      HexNumberBound(s[..|s| - 1]);
      assert s[|s| - 1] in s;
    }
  }

  lemma Pow16Of8(k: nat)
    ensures Pow16(k + 8) == Pow16(k) * 0x1_0000_0000
  {
    assert Pow16(k + 4) == Pow16(k) * 0x1_0000 by {
      assert Pow16(k + 2) == Pow16(k) * 0x100;
    }
    assert Pow16(k + 6) == Pow16(k + 4) * 0x100;
  }

  lemma Pow16OfUuid()
    ensures Pow16(32) == 0x1_0000_0000_0000_0000_0000_0000_0000_0000
  {
    Pow16Of8(0);
    Pow16Of8(8);
    Pow16Of8(16);
    Pow16Of8(24);
  }

  function FixedHex(n: nat, width: nat): string {
    if width == 0 then "" else FixedHex(n / 16, width - 1) + [HexDigit(n % 16)]
  }

  lemma {:induction false} FixedHexReads(n: nat, width: nat)
    requires n < Pow16(width)
    ensures |FixedHex(n, width)| == width && AllHex(FixedHex(n, width)) && Token(FixedHex(n, width))
    ensures HexNumber(FixedHex(n, width)) == n
  {
    if width > 0 {
      FixedHexReads(n / 16, width - 1);
      HexDigitReads(n % 16);
      assert FixedHex(n, width)[..width - 1] == FixedHex(n / 16, width - 1);
    }
  }

  /** Groups of 8, 4, 4, 4 and 12 lower-case digits. */
  function UuidText(u: Uuid): string {
    var h := FixedHex(u, 32);
    Pow16OfUuid();
    FixedHexReads(u, 32);
    h[..8] + "-" + h[8..12] + "-" + h[12..16] + "-" + h[16..20] + "-" + h[20..]
  }

  function ParseSimple(s: string): Option<Uuid>
    requires |s| == 32
  {
    if AllHex(s) then
      Pow16OfUuid();
      HexNumberBound(s);
      Some(HexNumber(s))
    else None
  }

  function ParseHyphenated(s: string): Option<Uuid>
    requires |s| == 36
  {
    if s[8] == '-' && s[13] == '-' && s[18] == '-' && s[23] == '-' then
      ParseSimple(s[..8] + s[9..13] + s[14..18] + s[19..23] + s[24..])
    else None
  }

  /** `Uuid::parse_str`: simple, hyphenated, braced and URN forms. */
  function ParseUuid(s: string): Option<Uuid> {
    if |s| == 32 then ParseSimple(s)
    else if |s| == 36 then ParseHyphenated(s)
    else if |s| == 38 && s[0] == '{' && s[37] == '}' then ParseHyphenated(s[1..37])
    else if |s| == 45 && s[..9] == "urn:uuid:" then ParseHyphenated(s[9..])
    else None
  }

  lemma Regroup(h: string)
    requires |h| == 32
    ensures var s := h[..8] + "-" + h[8..12] + "-" + h[12..16] + "-" + h[16..20] + "-" + h[20..];
            && |s| == 36 && s[8] == '-' && s[13] == '-' && s[18] == '-' && s[23] == '-'
            && s[..8] + s[9..13] + s[14..18] + s[19..23] + s[24..] == h
  {
    var s := h[..8] + "-" + h[8..12] + "-" + h[12..16] + "-" + h[16..20] + "-" + h[20..];
    assert s[..8] == h[..8];
    assert s[9..13] == h[8..12];
    assert s[14..18] == h[12..16];
    assert s[19..23] == h[16..20];
    assert s[24..] == h[20..];
    assert h[..8] + h[8..12] + h[12..16] + h[16..20] + h[20..] == h;
  }

  lemma RegroupedToken(h: string)
    requires |h| == 32 && Token(h)
    ensures Token(h[..8] + "-" + h[8..12] + "-" + h[12..16] + "-" + h[16..20] + "-" + h[20..])
  {
    var s := h[..8] + "-" + h[8..12] + "-" + h[12..16] + "-" + h[16..20] + "-" + h[20..];
    forall i | 0 <= i < |s| ensures '!' <= s[i] <= '~' && s[i] != ',' {
      var dashes := if i < 8 then 0 else if i < 13 then 1 else if i < 18 then 2 else if i < 23 then 3 else 4;
      if s[i] != '-' {
        assert s[i] == h[i - dashes];
        assert h[i - dashes] in h;
      }
    }
  }

  /** A printed identifier is read back. */
  lemma UuidTextParses(u: Uuid)
    ensures ParseUuid(UuidText(u)) == Some(u) && Token(UuidText(u))
  {
    hide Token;
    var h := FixedHex(u, 32);
    Pow16OfUuid();
    FixedHexReads(u, 32);
    Regroup(h);
    RegroupedToken(h);
  }

  lemma {:induction false} FixedHexIsLower(n: nat, width: nat)
    ensures |FixedHex(n, width)| == width
    ensures forall i :: 0 <= i < width ==> FixedHex(n, width)[i] in "0123456789abcdef"
  {
    if width > 0 {
      FixedHexIsLower(n / 16, width - 1);
      DigitsAre(n % 16);
    }
  }

  lemma RegroupedLower(h: string, i: nat)
    requires |h| == 32 && i < 36 && forall j :: 0 <= j < 32 ==> h[j] in "0123456789abcdef"
    ensures var s := h[..8] + "-" + h[8..12] + "-" + h[12..16] + "-" + h[16..20] + "-" + h[20..];
            |s| == 36 && if i == 8 || i == 13 || i == 18 || i == 23 then s[i] == '-' else s[i] in "0123456789abcdef"
  {
    var s := h[..8] + "-" + h[8..12] + "-" + h[12..16] + "-" + h[16..20] + "-" + h[20..];
    var dashes := if i < 8 then 0 else if i < 13 then 1 else if i < 18 then 2 else if i < 23 then 3 else 4;
    if i != 8 && i != 13 && i != 18 && i != 23 {
      assert s[i] == h[i - dashes];
    }
  }

  /** Printed in lower case with hyphens after 8, 12, 16 and 20 digits. */
  lemma UuidTextIsLower(u: Uuid, i: nat)
    requires i < 36
    ensures |UuidText(u)| == 36
    ensures if i == 8 || i == 13 || i == 18 || i == 23 then UuidText(u)[i] == '-' else UuidText(u)[i] in "0123456789abcdef"
  {
    FixedHexIsLower(u, 32);
    RegroupedLower(FixedHex(u, 32), i);
    hide FixedHex;
  }

  /** The other forms that are read: without hyphens, in braces, as a URN. */
  lemma UuidForms(u: Uuid)
    ensures ParseUuid(FixedHex(u, 32)) == Some(u)
    ensures ParseUuid("{" + UuidText(u) + "}") == Some(u)
    ensures ParseUuid("urn:uuid:" + UuidText(u)) == Some(u)
  {
    UuidTextParses(u);
    UuidTextIsLower(u, 0);
    Pow16OfUuid();
    FixedHexReads(u, 32);
    hide UuidText, ParseHyphenated;
    assert ("{" + UuidText(u) + "}")[1..37] == UuidText(u);
    assert ("urn:uuid:" + UuidText(u))[9..] == UuidText(u);
    assert ("urn:uuid:" + UuidText(u))[..9] == "urn:uuid:";
  }

  /** Nothing else is read: of these lengths only, with digits of either case and hyphens where they belong. */
  lemma ParsedUuidIsForm(s: string)
    requires ParseUuid(s).Some?
    ensures |s| == 32 ==> AllHex(s)
    ensures |s| == 32 || exists t :: (s == t || s == "{" + t + "}" || s == "urn:uuid:" + t) && |t| == 36
                                     && t[8] == '-' && t[13] == '-' && t[18] == '-' && t[23] == '-'
                                     && AllHex(t[..8] + t[9..13] + t[14..18] + t[19..23] + t[24..])
  {
    if |s| != 32 {
      var t := if |s| == 36 then s else if |s| == 38 then s[1..37] else s[9..];
      assert |s| == 38 ==> s == "{" + t + "}";
      assert |s| == 45 ==> s == "urn:uuid:" + t;
    }
  }

  // ----- Base64 ------------------------------------------------------------------------------------

  function B64Char(n: nat): char
    requires n < 64
  {
    if n < 26 then (65 + n) as char
    else if n < 52 then (71 + n) as char
    else if n < 62 then (n - 4) as char
    else if n == 62 then '+' else '/'
  }

  function B64Value(c: char): (v: Option<nat>)
    ensures v.Some? ==> v.value < 64 && B64Char(v.value) == c
  {
    if 'A' <= c <= 'Z' then Some(c as int - 65)
    else if 'a' <= c <= 'z' then Some(c as int - 71)
    else if '0' <= c <= '9' then Some(c as int + 4)
    else if c == '+' then Some(62)
    else if c == '/' then Some(63)
    else None
  }

  lemma B64CharReads(n: nat)
    requires n < 64
    ensures B64Value(B64Char(n)) == Some(n) && Token([B64Char(n)]) && B64Char(n) != '='
  {
  }

  function Base64(bytes: seq<Byte>): string {
    if bytes == [] then ""
    else if |bytes| == 1 then
      [B64Char(bytes[0] / 4), B64Char(bytes[0] % 4 * 16), '=', '=']
    else if |bytes| == 2 then
      [B64Char(bytes[0] / 4), B64Char(bytes[0] % 4 * 16 + bytes[1] / 16), B64Char(bytes[1] % 16 * 4), '=']
    else
      [B64Char(bytes[0] / 4), B64Char(bytes[0] % 4 * 16 + bytes[1] / 16),
       B64Char(bytes[1] % 16 * 4 + bytes[2] / 64), B64Char(bytes[2] % 64)] + Base64(bytes[3..])
  }

  /** One group of four: unused bits of a padded group must be zero. */
  function FromGroup(w: char, x: char, y: char, z: char, final: bool): Option<seq<Byte>> {
    var a, b, c, d := B64Value(w), B64Value(x), B64Value(y), B64Value(z);
    if a.None? || b.None? then None
    else if final && y == '=' && z == '=' then
      if b.value % 16 == 0 then Some([a.value * 4 + b.value / 16]) else None
    else if c.None? then None
    else if final && z == '=' then
      if c.value % 4 == 0 then Some([a.value * 4 + b.value / 16, b.value % 16 * 16 + c.value / 4]) else None
    else if d.None? then None
    else Some([a.value * 4 + b.value / 16, b.value % 16 * 16 + c.value / 4, c.value % 4 * 64 + d.value])
  }

  /** The standard engine: padding is required and only the canonical text of some bytes is read. */
  function FromBase64(s: string): Option<seq<Byte>> {
    if s == "" then Some([])
    else if |s| < 4 then None
    else
      match FromGroup(s[0], s[1], s[2], s[3], |s| == 4)
      case None => None
      case Some(group) =>
        match FromBase64(s[4..])
        case None => None
        case Some(rest) => Some(group + rest)
  }

  lemma Sextets(a: Byte, b: Byte, c: Byte)
    ensures a / 4 * 4 + (a % 4 * 16 + b / 16) / 16 == a && (a % 4 * 16) % 16 == 0
    ensures (a % 4 * 16 + b / 16) % 16 * 16 + (b % 16 * 4 + c / 64) / 4 == b && (b % 16 * 4) % 4 == 0
    ensures (b % 16 * 4 + c / 64) % 4 * 64 + c % 64 == c
  {
    assert (a % 4 * 16 + b / 16) / 16 == a % 4;
    assert (a % 4 * 16 + b / 16) % 16 == b / 16;
    assert (b % 16 * 4 + c / 64) / 4 == b % 16;
    assert (b % 16 * 4 + c / 64) % 4 == c / 64;
  }

  lemma FullGroup(a: Byte, b: Byte, c: Byte, final: bool)
    ensures FromGroup(B64Char(a / 4), B64Char(a % 4 * 16 + b / 16), B64Char(b % 16 * 4 + c / 64), B64Char(c % 64), final)
         == Some([a, b, c])
  {
    hide B64Char, B64Value;
    B64CharReads(a / 4);
    B64CharReads(a % 4 * 16 + b / 16);
    B64CharReads(b % 16 * 4 + c / 64);
    B64CharReads(c % 64);
    Sextets(a, b, c);
  }

  lemma PairGroup(a: Byte, b: Byte)
    ensures FromGroup(B64Char(a / 4), B64Char(a % 4 * 16 + b / 16), B64Char(b % 16 * 4), '=', true) == Some([a, b])
  {
    hide B64Char, B64Value;
    B64CharReads(a / 4);
    B64CharReads(a % 4 * 16 + b / 16);
    B64CharReads(b % 16 * 4);
    Sextets(a, b, 0);
  }

  lemma SingleGroup(a: Byte)
    ensures FromGroup(B64Char(a / 4), B64Char(a % 4 * 16), '=', '=', true) == Some([a])
  {
    hide B64Char, B64Value;
    B64CharReads(a / 4);
    B64CharReads(a % 4 * 16);
    Sextets(a, 0, 0);
  }

  /** Encoded bytes are read back. */
  lemma {:induction false} Base64Decodes(bytes: seq<Byte>)
    ensures FromBase64(Base64(bytes)) == Some(bytes)
  {
    hide FromGroup, B64Char, B64Value, FromBase64;
    if |bytes| >= 3 {
      FullGroup(bytes[0], bytes[1], bytes[2], Base64(bytes[3..]) == "");
      Base64Decodes(bytes[3..]);
      GroupFirst(B64Char(bytes[0] / 4), B64Char(bytes[0] % 4 * 16 + bytes[1] / 16),
                 B64Char(bytes[1] % 16 * 4 + bytes[2] / 64), B64Char(bytes[2] % 64), Base64(bytes[3..]));
      assert [bytes[0], bytes[1], bytes[2]] + bytes[3..] == bytes;
    } else if |bytes| == 2 {
      PairGroup(bytes[0], bytes[1]);
      GroupLast(B64Char(bytes[0] / 4), B64Char(bytes[0] % 4 * 16 + bytes[1] / 16), B64Char(bytes[1] % 16 * 4), '=');
      assert bytes == [bytes[0], bytes[1]];
    } else if |bytes| == 1 {
      SingleGroup(bytes[0]);
      GroupLast(B64Char(bytes[0] / 4), B64Char(bytes[0] % 4 * 16), '=', '=');
      assert bytes == [bytes[0]];
    } else {
      NothingDecodes();
    }
  }

  lemma NothingDecodes()
    ensures FromBase64("") == Some([])
  {
  }

  lemma GroupFirst(w: char, x: char, y: char, z: char, rest: string)
    requires FromGroup(w, x, y, z, rest == "").Some? && FromBase64(rest).Some?
    ensures FromBase64([w, x, y, z] + rest) == Some(FromGroup(w, x, y, z, rest == "").value + FromBase64(rest).value)
  {
    hide FromGroup;
    var s := [w, x, y, z] + rest;
    assert s[4..] == rest;
  }

  lemma GroupLast(w: char, x: char, y: char, z: char)
    requires FromGroup(w, x, y, z, true).Some?
    ensures FromBase64([w, x, y, z]) == FromGroup(w, x, y, z, true)
  {
    NothingDecodes();
    GroupFirst(w, x, y, z, "");
    assert [w, x, y, z] + "" == [w, x, y, z];
    var group := FromGroup(w, x, y, z, true).value;
    assert group + [] == group;
  }

  lemma Octets(a: nat, b: nat, c: nat, d: nat)
    requires a < 64 && b < 64 && c < 64 && d < 64
    ensures var x, y, z := a * 4 + b / 16, b % 16 * 16 + c / 4, c % 4 * 64 + d;
            && x < 256 && y < 256 && z < 256
            && x / 4 == a && x % 4 == b / 16 && y / 16 == b % 16 && y % 16 == c / 4
            && z / 64 == c % 4 && z % 64 == d
            && b / 16 * 16 + b % 16 == b && c / 4 * 4 + c % 4 == c
  {
  }

  lemma GroupIsCanonical(w: char, x: char, y: char, z: char, final: bool)
    requires FromGroup(w, x, y, z, final).Some?
    ensures var g := FromGroup(w, x, y, z, final).value;
            && 1 <= |g| <= 3 && (|g| < 3 ==> final)
            && [w, x, y, z] == Base64(g)
  {
    hide B64Char, B64Value;
    var a, b := B64Value(w).value, B64Value(x).value;
    var c, d := B64Value(y).GetOr(0), B64Value(z).GetOr(0);
    Octets(a, b, c, d);
    PaddingHasNoValue();
  }

  lemma PaddingHasNoValue()
    ensures B64Value('=').None?
  {
  }

  /** Text that is read is the encoding of what was read: each byte string has one encoding. */
  lemma {:induction false} FromBase64IsCanonical(s: string)
    requires FromBase64(s).Some?
    ensures Base64(FromBase64(s).value) == s
  {
    hide FromGroup, B64Char, B64Value;
    if s != "" {
      var group := FromGroup(s[0], s[1], s[2], s[3], |s| == 4).value;
      GroupIsCanonical(s[0], s[1], s[2], s[3], |s| == 4);
      var rest := FromBase64(s[4..]).value;
      FromBase64IsCanonical(s[4..]);
      assert s == [s[0], s[1], s[2], s[3]] + s[4..];
      if |group| == 3 {
        assert (group + rest)[3..] == rest;
        assert group[3..] == [];
      } else {
        assert s[4..] == "";
        assert rest == [];
        assert group + rest == group;
      }
    }
  }

  lemma {:induction false} Base64IsToken(bytes: seq<Byte>)
    ensures Token(Base64(bytes))
  {
    if bytes != [] {
      B64CharReads(bytes[0] / 4);
      if |bytes| == 1 {
        B64CharReads(bytes[0] % 4 * 16);
      } else {
        B64CharReads(bytes[0] % 4 * 16 + bytes[1] / 16);
        if |bytes| == 2 {
          B64CharReads(bytes[1] % 16 * 4);
        } else {
          B64CharReads(bytes[1] % 16 * 4 + bytes[2] / 64);
          B64CharReads(bytes[2] % 64);
          Base64IsToken(bytes[3..]);
        }
      }
    }
  }

  /** The alphabet: capital letters, small letters, digits, plus and slash. */
  lemma Base64Alphabet(n: nat)
    requires n < 64
    ensures n < 26 ==> B64Char(n) == "ABCDEFGHIJKLMNOPQRSTUVWXYZ"[n]
    ensures 26 <= n < 52 ==> B64Char(n) == "abcdefghijklmnopqrstuvwxyz"[n - 26]
    ensures 52 <= n < 62 ==> B64Char(n) == "0123456789"[n - 52]
    ensures n == 62 ==> B64Char(n) == '+'
    ensures n == 63 ==> B64Char(n) == '/'
  {
  }

  lemma MultipleIsFar(e: nat, d: nat)
    ensures e >= 1 ==> e * d >= d
  {
    if e >= 1 {
      assert (e - 1) * d >= 0;
    }
  }

  lemma Quotient(n: nat, d: nat, q: nat, r: nat)
    requires n == q * d + r && r < d
    ensures n / d == q && n % d == r
  {
    assert n == n / d * d + n % d;
    var e := if n / d >= q then n / d - q else q - n / d;
    assert e * d == if n / d >= q then n / d * d - q * d else q * d - n / d * d;
    MultipleIsFar(e, d);
  }

  lemma SextetsOfNumber(a: nat, b: nat, c: nat)
    requires a < 256 && b < 256 && c < 256
    ensures var n := a * 0x1_0000 + b * 0x100 + c;
            && n / 0x4_0000 == a / 4 && n / 0x1000 % 64 == a % 4 * 16 + b / 16
            && n / 64 % 64 == b % 16 * 4 + c / 64 && n % 64 == c % 64
  {
    var n := a * 0x1_0000 + b * 0x100 + c;
    Quotient(n, 0x4_0000, a / 4, a % 4 * 0x1_0000 + b * 0x100 + c);
    Quotient(n, 0x1000, a * 16 + b / 16, b % 16 * 0x100 + c);
    Quotient(n / 0x1000, 64, a / 4, a % 4 * 16 + b / 16);
    Quotient(n, 64, a * 0x400 + b * 4 + c / 64, c % 64);
    Quotient(n / 64, 64, a * 16 + b / 16, b % 16 * 4 + c / 64);
  }

  /** Three bytes, the first one highest, make four digits of the alphabet, the highest first. */
  lemma Base64OfThree(a: Byte, b: Byte, c: Byte, rest: seq<Byte>)
    ensures var n := a as int * 0x1_0000 + b as int * 0x100 + c as int;
            Base64([a, b, c] + rest)
            == [B64Char(n / 0x4_0000), B64Char(n / 0x1000 % 64), B64Char(n / 64 % 64), B64Char(n % 64)] + Base64(rest)
  {
    hide B64Char;
    SextetsOfNumber(a, b, c);
    assert ([a, b, c] + rest)[3..] == rest;
  }
}
