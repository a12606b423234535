/**
  `crypto/uuid.go`: sixteen bytes with a version and a variant, and their text form.
 */
module Uuid {

  datatype Option<T> = None | Some(value: T)

  datatype ParseError =
    | InvalidString  // the pattern does not match
    | InvalidByte    // a letter beyond f, found by hex.DecodeString
    | InvalidLength  // Parse: not sixteen bytes

  datatype Result<T> = Ok(value: T) | Err(error: ParseError)

  type Octets = seq<bv8>

  const RESERVED_NCS: bv8 := 0x80
  const RESERVED_RFC4122: bv8 := 0x40
  const RESERVED_MICROSOFT: bv8 := 0x20
  const RESERVED_FUTURE: bv8 := 0x00

  // ---------------------------------------------------------------- bit fields

  /** `setVariant` on byte 8. */
  function WithVariant(b: bv8, v: bv8): bv8 {
    if v == RESERVED_NCS then (b | RESERVED_NCS) & 0xBF
    else if v == RESERVED_RFC4122 then (b | RESERVED_RFC4122) & 0x7F
    else if v == RESERVED_MICROSOFT then (b | RESERVED_MICROSOFT) & 0x3F
    else b
  }

  /** `Variant` of byte 8. */
  function VariantOf(b: bv8): bv8 {
    if b & RESERVED_NCS == RESERVED_NCS then RESERVED_NCS
    else if b & RESERVED_RFC4122 == RESERVED_RFC4122 then RESERVED_RFC4122
    else if b & RESERVED_MICROSOFT == RESERVED_MICROSOFT then RESERVED_MICROSOFT
    else RESERVED_FUTURE
  }

  /** `setVersion` on byte 6. */
  function WithVersion(b: bv8, v: bv8): bv8 {
    (b & 0xF) | (v << 4)
  }

  /** `Version` of byte 6. */
  function VersionOf(b: bv8): bv8 {
    b >> 4
  }

  /**
    The variant that is set is the variant that is read, exactly for the three reserved values that
    are not zero (any other leaves the byte alone); the low five bits are never touched, and bit 5
    only by the Microsoft variant.
   */
  lemma VariantLaws(b: bv8, v: bv8)
    ensures VariantOf(WithVariant(b, v)) == v
            <==> v in {RESERVED_NCS, RESERVED_RFC4122, RESERVED_MICROSOFT} || VariantOf(b) == v
    ensures WithVariant(b, v) & 0x1F == b & 0x1F
    ensures v != RESERVED_MICROSOFT ==> WithVariant(b, v) & 0x3F == b & 0x3F
  {
  }

  /** The highest of the upper three bits that is set decides, whatever those below it are. */
  lemma VariantRead(b: bv8)
    ensures b >= 0x80 ==> VariantOf(b) == RESERVED_NCS
    ensures 0x40 <= b < 0x80 ==> VariantOf(b) == RESERVED_RFC4122
    ensures 0x20 <= b < 0x40 ==> VariantOf(b) == RESERVED_MICROSOFT
    ensures b < 0x20 ==> VariantOf(b) == RESERVED_FUTURE
  {
  }

  /** Every bit of the byte after the variant or the version has been set. */
  lemma FieldBits(b: bv8, v: bv8)
    ensures WithVariant(b, RESERVED_NCS) == 0x80 + b % 0x40
    ensures WithVariant(b, RESERVED_RFC4122) == 0x40 + b % 0x40
    ensures WithVariant(b, RESERVED_MICROSOFT) == 0x20 + b % 0x20
    ensures v !in {RESERVED_NCS, RESERVED_RFC4122, RESERVED_MICROSOFT} ==> WithVariant(b, v) == b
    ensures WithVersion(b, v) == v % 0x10 * 0x10 + b % 0x10
    ensures VersionOf(b) == b / 0x10
  {
  }

  /** The version that is read is the low half of the version that was set; the low half of the byte stays. */
  lemma VersionLaws(b: bv8, v: bv8)
    ensures VersionOf(WithVersion(b, v)) == v & 0xF
    ensures WithVersion(b, v) & 0xF == b & 0xF
  {
  }

  /** Both fields of sixteen bytes. */
  function WithFields(u: Octets, variant: bv8, version: bv8): Octets
    requires |u| == 16
  {
    u[8 := WithVariant(u[8], variant)][6 := WithVersion(u[6], version)]
  }

  /** The two setters commute, and all bytes but 6 and 8 keep their values. */
  lemma FieldsCommute(u: Octets, variant: bv8, version: bv8)
    requires |u| == 16
    ensures WithFields(u, variant, version)
            == u[6 := WithVersion(u[6], version)][8 := WithVariant(u[8], variant)]
    ensures forall i :: 0 <= i < 16 && i != 6 && i != 8 ==> WithFields(u, variant, version)[i] == u[i]
    ensures VersionOf(WithFields(u, variant, version)[6]) == version & 0xF
    ensures variant in {RESERVED_NCS, RESERVED_RFC4122, RESERVED_MICROSOFT} ==>
              VariantOf(WithFields(u, variant, version)[8]) == variant
  {
    VariantLaws(u[8], variant);
    VersionLaws(u[6], version);
  }

  // ---------------------------------------------------------------- hexadecimal text

  /** One lower-case hexadecimal digit. */
  function Digit(n: bv8): char
    requires n < 16
  {
    if n == 0 then '0' else if n == 1 then '1' else if n == 2 then '2' else if n == 3 then '3'
    else if n == 4 then '4' else if n == 5 then '5' else if n == 6 then '6' else if n == 7 then '7'
    else if n == 8 then '8' else if n == 9 then '9' else if n == 10 then 'a' else if n == 11 then 'b'
    else if n == 12 then 'c' else if n == 13 then 'd' else if n == 14 then 'e' else 'f'
  }

  /** The value of a digit; upper-case digits are accepted by `hex.DecodeString`, too. */
  function DigitValue(c: char): (r: Option<bv8>)
    ensures r.Some? ==> r.value < 16
  {
    match c
    case '0' => Some(0) case '1' => Some(1) case '2' => Some(2) case '3' => Some(3)
    case '4' => Some(4) case '5' => Some(5) case '6' => Some(6) case '7' => Some(7)
    case '8' => Some(8) case '9' => Some(9)
    case 'a' => Some(10) case 'b' => Some(11) case 'c' => Some(12)
    case 'd' => Some(13) case 'e' => Some(14) case 'f' => Some(15)
    case 'A' => Some(10) case 'B' => Some(11) case 'C' => Some(12)
    case 'D' => Some(13) case 'E' => Some(14) case 'F' => Some(15)
    case _ => None
  }

  /** `[a-z0-9]` */
  predicate IsWordChar(c: char) {
    'a' <= c <= 'z' || '0' <= c <= '9'
  }

  /** `[a-f0-9]` */
  predicate IsHexChar(c: char) {
    'a' <= c <= 'f' || '0' <= c <= '9'
  }

  /** The value of a hexadecimal digit, by the distance to the first of its kind. */
  function HexValue(c: char): int {
    if '0' <= c <= '9' then c as int - '0' as int
    else if 'a' <= c <= 'f' then c as int - 'a' as int + 10
    else if 'A' <= c <= 'F' then c as int - 'A' as int + 10
    else -1
  }

  lemma DigitValueIs(c: char)
    ensures match DigitValue(c)
            case Some(n) => n as int == HexValue(c)
            case None => HexValue(c) == -1
  {
  }

  /** The lower-case digit of a value. */
  function HexChar(n: int): char
    requires 0 <= n < 16
  {
    if n < 10 then ('0' as int + n) as char else ('a' as int + n - 10) as char
  }

  lemma DigitIs(n: bv8)
    requires n < 16
    ensures Digit(n) == HexChar(n as int) && HexValue(HexChar(n as int)) == n as int
  {
  }

  lemma DigitLaws(n: bv8)
    requires n < 16
    ensures DigitValue(Digit(n)) == Some(n) && IsHexChar(Digit(n))
    ensures '1' <= Digit(n) <= '5' <==> 1 <= n <= 5
  {
  }

  lemma DigitValueLaws(c: char)
    requires IsWordChar(c)
    ensures DigitValue(c).Some? <==> IsHexChar(c)
    ensures DigitValue(c).Some? ==> Digit(DigitValue(c).value) == c
  {
  }

  lemma Halves(b: bv8)
    ensures b >> 4 < 16 && b & 0xF < 16
    ensures ((b >> 4) << 4) | (b & 0xF) == b
  {
  }

  lemma FromHalves(hi: bv8, lo: bv8)
    requires hi < 16 && lo < 16
    ensures ((hi << 4) | lo) >> 4 == hi && ((hi << 4) | lo) & 0xF == lo
  {
  }

  /** The two digits of a byte. */
  function Pair(b: bv8): (s: string)
    ensures |s| == 2
  {
    Halves(b);
    [Digit(b >> 4), Digit(b & 0xF)]
  }

  /** `%x` of a slice. */
  function Hex(u: Octets): (s: string)
    ensures |s| == 2 * |u|
  {
    if u == [] then "" else Pair(u[0]) + Hex(u[1..])
  }

  /** `hex.DecodeString` of an even number of characters. */
  function DecodeHex(s: string): (r: Option<Octets>)
    requires |s| % 2 == 0
    ensures r.Some? ==> 2 * |r.value| == |s|
  {
    if s == "" then Some([]) else
    var hi, lo, rest := DigitValue(s[0]), DigitValue(s[1]), DecodeHex(s[2..]);
    if hi.None? || lo.None? || rest.None? then None
    else Some([(hi.value << 4) | lo.value] + rest.value)
  }

  lemma {:induction false} DecodeOfHex(u: Octets)
    ensures DecodeHex(Hex(u)) == Some(u)
    ensures forall i :: 0 <= i < |Hex(u)| ==> IsHexChar(Hex(u)[i])
  {
    hide Digit, DigitValue, IsHexChar;
    if u != [] {
      Halves(u[0]);
      DigitLaws(u[0] >> 4);
      DigitLaws(u[0] & 0xF);
      DecodeOfHex(u[1..]);
      assert Hex(u)[2..] == Hex(u[1..]);
      assert [((u[0] >> 4) << 4) | (u[0] & 0xF)] + u[1..] == u;
    }
  }

  lemma {:induction false} HexOfDecode(s: string)
    requires |s| % 2 == 0 && forall i :: 0 <= i < |s| ==> IsWordChar(s[i])
    ensures DecodeHex(s).Some? <==> forall i :: 0 <= i < |s| ==> IsHexChar(s[i])
    ensures DecodeHex(s).Some? ==> Hex(DecodeHex(s).value) == s
  {
    if s != "" {
      DigitValueLaws(s[0]);
      DigitValueLaws(s[1]);
      HexOfDecode(s[2..]);
      var rest := s[2..];
      assert forall i :: 2 <= i < |s| ==> s[i] == rest[i - 2];
      if DecodeHex(s).Some? {
        FromHalves(DigitValue(s[0]).value, DigitValue(s[1]).value);
        assert s == [s[0], s[1]] + rest;
      }
    }
  }

  lemma Combined(hi: bv8, lo: bv8)
    requires hi < 16 && lo < 16
    ensures ((hi << 4) | lo) as int == 16 * (hi as int) + lo as int
  {
    assert (hi << 4) | lo == 16 * hi + lo;
  }

  lemma SplitByte(b: bv8)
    ensures (b >> 4) as int == b as int / 16 && (b & 0xF) as int == b as int % 16
  {
    Halves(b);
    Combined(b >> 4, b & 0xF);
  }

  /** Every byte is sixteen times the value of its first character plus that of its second. */
  lemma {:induction false} DecodedByte(s: string, i: nat)
    requires |s| % 2 == 0 && 2 * i < |s| && DecodeHex(s).Some?
    ensures DecodeHex(s).value[i] as int == 16 * HexValue(s[2 * i]) + HexValue(s[2 * i + 1])
    ensures HexValue(s[2 * i]) >= 0 && HexValue(s[2 * i + 1]) >= 0
  {
    DigitValueIs(s[0]);
    DigitValueIs(s[1]);
    if i == 0 {
      Combined(DigitValue(s[0]).value, DigitValue(s[1]).value);
    } else {
      DecodedByte(s[2..], i - 1);
    }
  }

  /** Decoding fails exactly if some character is not a hexadecimal digit of either case. */
  lemma {:induction false} DecodeFails(s: string)
    requires |s| % 2 == 0
    ensures DecodeHex(s).None? <==> exists i :: 0 <= i < |s| && HexValue(s[i]) == -1
  {
    if s != "" {
      DigitValueIs(s[0]);
      DigitValueIs(s[1]);
      var rest := s[2..];
      DecodeFails(rest);
      assert forall i :: 2 <= i < |s| ==> s[i] == rest[i - 2];
      if i :| 0 <= i < |rest| && HexValue(rest[i]) == -1 {
        assert HexValue(s[i + 2]) == -1;
      }
    }
  }

  /** The two characters of every byte. */
  lemma {:induction false} EncodedByte(u: Octets, i: nat)
    requires i < |u|
    ensures Hex(u)[2 * i] == HexChar(u[i] as int / 16) && Hex(u)[2 * i + 1] == HexChar(u[i] as int % 16)
  {
    if i > 0 {
      EncodedByte(u[1..], i - 1);
    } else {
      Halves(u[0]);
      SplitByte(u[0]);
      DigitIs(u[0] >> 4);
      DigitIs(u[0] & 0xF);
    }
  }

  lemma {:induction false} HexOfPair(u: Octets, i: nat)
    requires i < |u|
    ensures u[i] >> 4 < 16
    ensures Hex(u)[2 * i] == Digit(u[i] >> 4)
  {
    Halves(u[i]);
    if i > 0 {
      HexOfPair(u[1..], i - 1);
    }
  }

  lemma {:induction false} HexOfConcat(a: Octets, b: Octets)
    ensures Hex(a + b) == Hex(a) + Hex(b)
  {
    hide Pair;
    if a == [] {
      assert a + b == b;
    } else {
      HexOfConcat(a[1..], b);
      assert (a + b)[1..] == a[1..] + b;
    }
  }

  lemma HexOfParts(a: Octets, b: Octets, c: Octets, d: Octets, e: Octets)
    ensures Hex(a + b + c + d + e) == Hex(a) + Hex(b) + Hex(c) + Hex(d) + Hex(e)
  {
    hide Hex;
    HexOfConcat(a, b);
    HexOfConcat(a + b, c);
    HexOfConcat(a + b + c, d);
    HexOfConcat(a + b + c + d, e);
  }

  // ---------------------------------------------------------------- the text form

  /** `String`: five groups of digits. */
  function Text(u: Octets): (s: string)
    requires |u| == 16
    ensures |s| == 36
  {
    Hex(u[0..4]) + "-" + Hex(u[4..6]) + "-" + Hex(u[6..8]) + "-" + Hex(u[8..10]) + "-" + Hex(u[10..])
  }

  /** The groups `md[2]` to `md[6]`, one behind the other. */
  function Digits(core: string): (s: string)
    requires |core| == 36
    ensures |s| == 32
  {
    core[0..8] + core[9..13] + core[14..18] + core[19..23] + core[24..36]
  }

  /** The groups of the pattern, with the dashes between them. */
  predicate IsCore(core: string) {
    && |core| == 36
    && core[8] == core[13] == core[18] == core[23] == '-'
    && '1' <= core[14] <= '5'
    && forall i :: 0 <= i < 32 ==> IsWordChar(Digits(core)[i])
  }

  /** The pattern, character by character. */
  lemma CoreByPosition(core: string)
    ensures IsCore(core) <==>
              && |core| == 36
              && forall i :: 0 <= i < 36 ==>
                   if i in {8, 13, 18, 23} then core[i] == '-'
                   else if i == 14 then '1' <= core[i] <= '5'
                   else 'a' <= core[i] <= 'z' || '0' <= core[i] <= '9'
  {
    if |core| == 36 {
      forall i | 0 <= i < 36 && i !in {8, 13, 18, 23}
        ensures core[i] == Digits(core)[DigitAt(i)]
      {
        DigitMoved(core, i);
      }
      forall j | 0 <= j < 32
        ensures Digits(core)[j] == core[PlaceOf(j)]
      {
        DigitMoved(core, PlaceOf(j));
      }
    }
  }

  /** Where a character that is not a dash stands among the digits. */
  function DigitAt(i: nat): nat
    requires i < 36 && i !in {8, 13, 18, 23}
  {
    if i < 8 then i else if i < 13 then i - 1 else if i < 18 then i - 2 else if i < 23 then i - 3 else i - 4
  }

  /** Where a digit stands in the text. */
  function PlaceOf(j: nat): (i: nat)
    requires j < 32
    ensures i < 36 && i !in {8, 13, 18, 23} && DigitAt(i) == j
  {
    if j < 8 then j else if j < 12 then j + 1 else if j < 16 then j + 2 else if j < 20 then j + 3 else j + 4
  }

  lemma DigitMoved(core: string, i: nat)
    requires |core| == 36 && i < 36 && i !in {8, 13, 18, 23}
    ensures Digits(core)[DigitAt(i)] == core[i]
  {
  }

  /** The strings the pattern matches, and what its groups capture; the brackets are independent. */
  ghost predicate Matches(s: string, core: string) {
    IsCore(core) && exists prefix, open, close ::
      prefix in {"", "urn:uuid:"} && open in {"", "{"} && close in {"", "}"} && s == prefix + open + core + close
  }

  /** An optional part at the start is taken when it is there. */
  function Strip(s: string, part: string): string {
    if part <= s then s[|part|..] else s
  }

  lemma Stripped(s: string, part: string) returns (taken: string)
    ensures taken in {"", part} && s == taken + Strip(s, part)
  {
    taken := if part <= s then part else "";
  }

  /** `re.FindStringSubmatch`: the optional parts are taken when they are there. */
  function FindCore(s: string): (r: Option<string>)
    ensures r.Some? ==> IsCore(r.value)
  {
    var rest := Strip(Strip(s, "urn:uuid:"), "{");
    if |rest| < 36 || !IsCore(rest[..36]) then None
    else if rest[36..] == "" || rest[36..] == "}" then Some(rest[..36])
    else None
  }

  /** Taking the optional parts greedily finds exactly the matches of the pattern. */
  lemma FindCoreIsMatch(s: string, core: string)
    ensures FindCore(s) == Some(core) <==> Matches(s, core)
  {
    if FindCore(s) == Some(core) {
      FoundMatches(s, core);
    }
    if Matches(s, core) {
      var prefix, open, close :|
        prefix in {"", "urn:uuid:"} && open in {"", "{"} && close in {"", "}"} && s == prefix + open + core + close;
      MatchFound(s, prefix, open, core, close);
    }
  }

  lemma FoundMatches(s: string, core: string)
    requires FindCore(s) == Some(core)
    ensures Matches(s, core)
  {
    hide IsCore, Matches, Strip;
    var prefix := Stripped(s, "urn:uuid:");
    var afterPrefix := Strip(s, "urn:uuid:");
    var open := Stripped(afterPrefix, "{");
    var rest := Strip(afterPrefix, "{");
    assert rest == core + rest[36..];
    MatchIntro(s, prefix, open, core, rest[36..]);
  }

  lemma MatchIntro(s: string, prefix: string, open: string, core: string, close: string)
    requires IsCore(core) && s == prefix + (open + (core + close))
    requires prefix in {"", "urn:uuid:"} && open in {"", "{"} && close in {"", "}"}
    ensures Matches(s, core)
  {
    hide IsCore;
    assert s == prefix + open + core + close;
  }

  lemma MatchFound(s: string, prefix: string, open: string, core: string, close: string)
    requires IsCore(core) && s == prefix + open + core + close
    requires prefix in {"", "urn:uuid:"} && open in {"", "{"} && close in {"", "}"}
    ensures FindCore(s) == Some(core)
  {
    hide IsCore, Strip;
    CoreStart(core, close);
    var rest := core + close;
    assert s == prefix + (open + rest);
    StripOptional("{", open, rest);
    BracketStart(open, rest);
    StripOptional("urn:uuid:", prefix, open + rest);
    assert rest[..36] == core && rest[36..] == close;
  }

  lemma StripOptional(part: string, taken: string, rest: string)
    requires taken in {"", part} && !(part <= rest)
    ensures Strip(taken + rest, part) == rest
  {
    if taken == "" {
      assert taken + rest == rest;
    } else {
      assert (part + rest)[|part|..] == rest;
    }
  }

  lemma BracketStart(open: string, rest: string)
    requires open in {"", "{"} && !("urn:uuid:" <= rest)
    ensures !("urn:uuid:" <= open + rest)
  {
    assert open == "" ==> open + rest == rest;
    assert open != "" ==> (open + rest)[0] == '{';
  }

  /** A core starts with neither of the optional parts. */
  lemma CoreStart(core: string, close: string)
    requires IsCore(core)
    ensures !("urn:uuid:" <= core + close) && !("{" <= core + close) && |core| == 36
  {
    assert Digits(core)[0] == core[0] && Digits(core)[3] == core[3];
    assert (core + close)[0] == core[0] && (core + close)[3] == core[3];
    assert IsWordChar(core[0]) && IsWordChar(core[3]);
  }

  /** `ParseHex`, as a function to sixteen bytes. */
  function ParseText(s: string): (r: Result<Octets>)
    ensures r.Ok? ==> |r.value| == 16
  {
    match FindCore(s)
    case None => Err(InvalidString)
    case Some(core) =>
      match DecodeHex(Digits(core))
      case None => Err(InvalidByte)
      case Some(u) => Ok(u)
  }

  // ---------------------------------------------------------------- main results

  /** The groups of a text form are the digits of the bytes. */
  lemma DigitsOfText(u: Octets)
    requires |u| == 16
    ensures Digits(Text(u)) == Hex(u)
    ensures Text(u)[8] == Text(u)[13] == Text(u)[18] == Text(u)[23] == '-'
  {
    hide Hex;
    HexOfParts(u[0..4], u[4..6], u[6..8], u[8..10], u[10..]);
    assert u == u[0..4] + u[4..6] + u[6..8] + u[8..10] + u[10..];
    GroupsOf(Hex(u[0..4]), Hex(u[4..6]), Hex(u[6..8]), Hex(u[8..10]), Hex(u[10..]));
  }

  lemma GroupsOf(a: string, b: string, c: string, d: string, e: string)
    requires |a| == 8 && |b| == |c| == |d| == 4 && |e| == 12
    ensures var t := a + "-" + b + "-" + c + "-" + d + "-" + e;
            && Digits(t) == a + b + c + d + e
            && t[8] == t[13] == t[18] == t[23] == '-'
  {
    var t := a + "-" + b + "-" + c + "-" + d + "-" + e;
    assert t[0..8] == a && t[9..13] == b && t[14..18] == c && t[19..23] == d && t[24..36] == e;
  }

  lemma DigitsParts(core: string)
    requires |core| == 36
    ensures var d := Digits(core);
            && d[0..8] == core[0..8] && d[8..12] == core[9..13] && d[12..16] == core[14..18]
            && d[16..20] == core[19..23] && d[20..32] == core[24..36]
  {
  }

  /** A core is the text form of the bytes its digits stand for. */
  lemma TextOfDigits(core: string, u: Octets)
    requires IsCore(core) && |u| == 16 && Hex(u) == Digits(core)
    ensures Text(u) == core
  {
    hide Hex, IsWordChar, Digits, Text;
    DigitsOfText(u);
    var t := Text(u);
    DigitsParts(t);
    DigitsParts(core);
    assert t == t[0..8] + [t[8]] + t[9..13] + [t[13]] + t[14..18] + [t[18]] + t[19..23] + [t[23]] + t[24..36];
    assert core == core[0..8] + [core[8]] + core[9..13] + [core[13]] + core[14..18] + [core[18]] + core[19..23]
                   + [core[23]] + core[24..36];
  }

  /** The text form of a UUID parses back to it exactly when its version is 1 to 5. */
  lemma TextRoundTrip(u: Octets)
    requires |u| == 16
    ensures ParseText(Text(u)) == Ok(u) <==> 1 <= VersionOf(u[6]) <= 5
    ensures ParseText(Text(u)).Ok? <==> 1 <= VersionOf(u[6]) <= 5
  {
    hide Hex, Text, IsWordChar, Digits, FindCore;
    var t := Text(u);
    DigitsOfText(u);
    DecodeOfHex(u);
    VersionDigit(u);
    assert t[..] == t;
    if 1 <= VersionOf(u[6]) <= 5 {
      HexIsWord(u);
      assert IsCore(t);
      assert t == "" + "" + t + "";
      MatchFound(t, "", "", t, "");
    } else {
      NoCore(u);
    }
  }

  lemma HexIsWord(u: Octets)
    ensures forall i :: 0 <= i < |Hex(u)| ==> IsWordChar(Hex(u)[i])
  {
    DecodeOfHex(u);
  }

  /** The version is the first digit of the third group. */
  lemma VersionDigit(u: Octets)
    requires |u| == 16
    ensures '1' <= Text(u)[14] <= '5' <==> 1 <= VersionOf(u[6]) <= 5
  {
    hide Hex;
    HexOfPair(u, 6);
    DigitLaws(u[6] >> 4);
    DigitsOfText(u);
    assert Digits(Text(u))[12] == Text(u)[14];
  }

  lemma NoCore(u: Octets)
    requires |u| == 16 && !(1 <= VersionOf(u[6]) <= 5)
    ensures FindCore(Text(u)) == None
  {
    hide Hex, Digits, Text;
    VersionDigit(u);
    TextStart(u);
    assert Text(u)[..36] == Text(u);
  }

  /** A text form starts with neither of the optional parts. */
  lemma TextStart(u: Octets)
    requires |u| == 16
    ensures !("urn:uuid:" <= Text(u)) && !("{" <= Text(u))
  {
    hide Hex;
    DecodeOfHex(u);
    DigitsOfText(u);
    assert Digits(Text(u))[0] == Text(u)[0];
    assert IsHexChar(Text(u)[0]);
  }

  /**
    The language of `ParseHex`: it succeeds exactly on the matches of the pattern whose letters are
    hexadecimal, and then the text form of the result is the matched core.
   */
  lemma ParseLanguage(s: string)
    ensures ParseText(s).Ok? <==>
              exists core :: Matches(s, core) && forall i :: 0 <= i < 32 ==> IsHexChar(Digits(core)[i])
    ensures ParseText(s).Ok? ==> Matches(s, Text(ParseText(s).value))
    ensures ParseText(s) == Err(InvalidString) <==> forall core :: !Matches(s, core)
  {
    hide Hex, Text, Digits, Matches, IsCore;
    forall core
      ensures FindCore(s) == Some(core) <==> Matches(s, core)
    {
      FindCoreIsMatch(s, core);
    }
    if FindCore(s).Some? {
      var core := FindCore(s).value;
      CoreIsWord(core);
      HexOfDecode(Digits(core));
      if ParseText(s).Ok? {
        TextOfDigits(core, ParseText(s).value);
      }
    }
  }

  /** The pattern matches but decoding fails: exactly for a letter beyond f. */
  lemma InvalidByteIff(s: string, core: string)
    requires Matches(s, core)
    ensures ParseText(s) == Err(InvalidByte) <==> exists i :: 0 <= i < 36 && 'g' <= core[i] <= 'z'
    ensures ParseText(s).Ok? || ParseText(s) == Err(InvalidByte)
  {
    hide Matches, IsCore, Digits;
    FindCoreIsMatch(s, core);
    CoreByPosition(core);
    DecodeFails(Digits(core));
    LettersOfDigits(core);
  }

  lemma LettersOfDigits(core: string)
    requires IsCore(core)
    ensures |core| == 36
    ensures (exists i :: 0 <= i < 36 && 'g' <= core[i] <= 'z')
            <==> exists j :: 0 <= j < 32 && HexValue(Digits(core)[j]) == -1
  {
    hide Digits;
    CoreByPosition(core);
    DigitsParts(core);
    var d := Digits(core);
    assert forall i :: 0 <= i < 36 && i !in {8, 13, 18, 23} ==> d[DigitAt(i)] == core[i] by {
      forall i | 0 <= i < 36 && i !in {8, 13, 18, 23}
        ensures d[DigitAt(i)] == core[i]
      {
        DigitMoved(core, i);
      }
    }
    if j :| 0 <= j < 32 && HexValue(d[j]) == -1 {
      assert d[DigitAt(PlaceOf(j))] == core[PlaceOf(j)];
    }
    if i :| 0 <= i < 36 && 'g' <= core[i] <= 'z' {
      assert HexValue(d[DigitAt(i)]) == -1;
    }
  }

  /** The bytes that `ParseHex` gives, read off the characters of the match. */
  lemma ParsedBytes(s: string, core: string, i: nat)
    requires Matches(s, core) && ParseText(s).Ok? && i < 16
    ensures ParseText(s).value[i] as int == 16 * HexValue(Digits(core)[2 * i]) + HexValue(Digits(core)[2 * i + 1])
  {
    hide IsCore, Matches, Digits;
    FindCoreIsMatch(s, core);
    DecodedByte(Digits(core), i);
  }

  /** The characters that `String` gives, read off the bytes; behind bytes 3, 5, 7 and 9 there is a dash. */
  lemma TextCharacters(u: Octets, i: nat)
    requires |u| == 16 && i < 16
    ensures var at := 2 * i + (if i < 4 then 0 else if i < 6 then 1 else if i < 8 then 2 else if i < 10 then 3 else 4);
            Text(u)[at] == HexChar(u[i] as int / 16) && Text(u)[at + 1] == HexChar(u[i] as int % 16)
    ensures Text(u)[8] == Text(u)[13] == Text(u)[18] == Text(u)[23] == '-'
  {
    hide Hex, Text;
    DigitsOfText(u);
    EncodedByte(u, i);
    DigitsParts(Text(u));
  }

  lemma CoreIsWord(core: string)
    requires IsCore(core)
    ensures |core| == 36 && forall i :: 0 <= i < 32 ==> IsWordChar(Digits(core)[i])
  {
  }

  // ---------------------------------------------------------------- the type

  class UUID {
    const u: array<bv8>

    /** `new(UUID)` filled from sixteen bytes. */
    constructor (b: Octets)
      requires |b| == 16
      ensures fresh(u) && u.Length == 16 && u[..] == b
    {
      u := new bv8[16](i requires 0 <= i < 16 => b[i]);
    }

    method SetVariant(v: bv8)
      requires u.Length == 16
      modifies u
      ensures u[..] == old(u[..])[8 := WithVariant(old(u[8]), v)]
    {
      if v == RESERVED_NCS {
        u[8] := (u[8] | RESERVED_NCS) & 0xBF;
      } else if v == RESERVED_RFC4122 {
        u[8] := (u[8] | RESERVED_RFC4122) & 0x7F;
      } else if v == RESERVED_MICROSOFT {
        u[8] := (u[8] | RESERVED_MICROSOFT) & 0x3F;
      }
    }

    method SetVersion(v: bv8)
      requires u.Length == 16
      modifies u
      ensures u[..] == old(u[..])[6 := WithVersion(old(u[6]), v)]
    {
      u[6] := (u[6] & 0xF) | (v << 4);
    }

    function Variant(): bv8
      requires u.Length == 16
      reads u
    {
      VariantOf(u[8])
    }

    function Version(): bv8
      requires u.Length == 16
      reads u
    {
      VersionOf(u[6])
    }

    function String(): string
      requires u.Length == 16
      reads u
    {
      Text(u[..])
    }
  }

  /** `ParseHex`: the bytes are the values of the digits of the match, two by two. */
  method ParseHex(s: string) returns (r: Result<UUID>)
    ensures match r
            case Ok(uuid) => fresh(uuid) && fresh(uuid.u) && uuid.u.Length == 16 && ParseText(s) == Ok(uuid.u[..])
            case Err(e) => ParseText(s) == Err(e)
    ensures r.Ok? ==> forall core, i :: Matches(s, core) && 0 <= i < 16 ==>
              r.value.u[i] as int == 16 * HexValue(Digits(core)[2 * i]) + HexValue(Digits(core)[2 * i + 1])
  {
    hide Digits;
    var md := FindCore(s);
    if md.None? {
      return Err(InvalidString);
    }
    var b := DecodeHex(Digits(md.value));
    if b.None? {
      return Err(InvalidByte);
    }
    forall core, i | Matches(s, core) && 0 <= i < 16
      ensures b.value[i] as int == 16 * HexValue(Digits(core)[2 * i]) + HexValue(Digits(core)[2 * i + 1])
    {
      ParsedBytes(s, core, i);
    }
    var uuid := new UUID(b.value);
    return Ok(uuid);
  }

  /** `Parse`. */
  method Parse(b: Octets) returns (r: Result<UUID>)
    ensures r.Ok? <==> |b| == 16
    ensures match r
            case Ok(uuid) => fresh(uuid) && fresh(uuid.u) && uuid.u.Length == 16 && uuid.u[..] == b
            case Err(e) => e == InvalidLength
  {
    if |b| != 16 {
      return Err(InvalidLength);
    }
    var uuid := new UUID(b);
    return Ok(uuid);
  }

  /**
    `NewUUID`, where `random` is what the source of randomness delivers; it fails if it delivers fewer
    than sixteen bytes. Then these bytes are returned as they are, next to the error. Otherwise the
    result has version 4 and the variant that is set, and its text form parses back to it.
   */
  method NewUUID(random: Octets) returns (uuid: UUID, failed: bool)
    requires |random| <= 16
    ensures fresh(uuid) && fresh(uuid.u) && uuid.u.Length == 16
    ensures failed <==> |random| < 16
    ensures failed ==> uuid.u[..] == random + Zeros(16 - |random|)
    ensures !failed ==>
              && uuid.Version() == 4 && uuid.Variant() == RESERVED_RFC4122
              && (forall i :: 0 <= i < 16 && i != 6 && i != 8 ==> uuid.u[i] == random[i])
              && ParseText(uuid.String()) == Ok(uuid.u[..])
  {
    hide Text, ParseText, WithVariant, WithVersion;
    uuid := new UUID(random + Zeros(16 - |random|));
    failed := |random| < 16;
    if failed {
      return;
    }
    assert uuid.u[..] == random;
    uuid.SetVariant(RESERVED_RFC4122);
    uuid.SetVersion(4);
    FieldsCommute(random, RESERVED_RFC4122, 4);
    assert uuid.u[..] == WithFields(random, RESERVED_RFC4122, 4);
    TextRoundTrip(uuid.u[..]);
  }

  /** The bytes of `new(UUID)` that are not overwritten. */
  function Zeros(n: nat): (b: Octets)
    ensures |b| == n
  {
    seq(n, i => 0)
  }
}
