/** UUID text: the lower-case hyphenated printer (section 4 of RFC 9562) and the spellings the parser accepts. */
module Uuids {
  import opened Errors
  import opened Int64
  import opened Text

  type Uuid = b: seq<byte> | |b| == 16 witness seq(16, _ => 0)

  function HexDigit(d: nat): (c: char)
    requires d < 16
  {
    if d < 10 then ('0' as int + d) as char else ('a' as int + (d - 10)) as char
  }

  function HexValue(c: char): (r: Option<nat>)
    ensures r.Some? ==> r.value < 16
  {
    if '0' <= c <= '9' then Some(c as int - '0' as int)
    else if 'a' <= c <= 'f' then Some(c as int - 'a' as int + 10)
    else if 'A' <= c <= 'F' then Some(c as int - 'A' as int + 10)
    else None
  }

  function Hex(b: seq<byte>): (s: string)
    ensures |s| == 2 * |b|
    ensures forall c | c in s :: '0' <= c <= '9' || 'a' <= c <= 'f'
  {
    if b == [] then "" else [HexDigit(b[0] / 16), HexDigit(b[0] % 16)] + Hex(b[1..])
  }

  function ParseHex(s: string): (r: Option<seq<byte>>)
    ensures r.Some? ==> |s| == 2 * |r.value| && forall c | c in s :: HexValue(c).Some?
  {
    if s == "" then Some([])
    else if |s| == 1 then None
    else
      var high :- HexValue(s[0]);
      var low :- HexValue(s[1]);
      var rest :- ParseHex(s[2..]);
      Some([high * 16 + low] + rest)
  }

  /** 8-4-4-4-12 grouping of 32 characters. */
  function Hyphenate(h: string): (s: string)
    requires |h| == 32
    ensures |s| == 36 && forall c | c in s :: c == '-' || c in h
  {
    h[..8] + "-" + h[8..12] + "-" + h[12..16] + "-" + h[16..20] + "-" + h[20..]
  }

  predicate HasHyphens(s: string) {
    |s| == 36 && s[8] == '-' && s[13] == '-' && s[18] == '-' && s[23] == '-'
  }

  /** The 32 characters between the hyphens. */
  function Unhyphenate(s: string): (h: string)
    requires |s| == 36
    ensures |h| == 32 && forall c | c in h :: c in s
  {
    s[..8] + s[9..13] + s[14..18] + s[19..23] + s[24..]
  }

  lemma UnhyphenateOfHyphenate(h: string)
    requires |h| == 32
    ensures HasHyphens(Hyphenate(h)) && Unhyphenate(Hyphenate(h)) == h
  {
    var s := Hyphenate(h);
    assert s[..8] == h[..8];
    assert s[9..13] == h[8..12];
    assert s[14..18] == h[12..16];
    assert s[19..23] == h[16..20];
    assert s[24..] == h[20..];
    assert h == h[..8] + h[8..12] + h[12..16] + h[16..20] + h[20..];
  }

  lemma HyphenateOfUnhyphenate(s: string)
    requires HasHyphens(s)
    ensures Hyphenate(Unhyphenate(s)) == s
  {
    var h := Unhyphenate(s);
    assert h[..8] == s[..8];
    assert h[8..12] == s[9..13];
    assert h[12..16] == s[14..18];
    assert h[16..20] == s[19..23];
    assert h[20..] == s[24..];
    assert s == s[..8] + "-" + s[9..13] + "-" + s[14..18] + "-" + s[19..23] + "-" + s[24..];
  }

  function ToText(id: Uuid): (s: string)
    ensures |s| == 36
  {
    Hyphenate(Hex(id))
  }

  function ParseSimple(s: string): (r: Option<Uuid>) {
    if |s| == 32 then ParseHex(s) else None
  }

  function ParseHyphenated(s: string): (r: Option<Uuid>) {
    if HasHyphens(s) then ParseSimple(Unhyphenate(s)) else None
  }

  /** Accepts the plain, hyphenated, braced and URN spellings, in either case. */
  function Parse(s: string): (r: Option<Uuid>) {
    if |s| == 32 then ParseSimple(s)
    else if |s| == 38 && s[0] == '{' && s[37] == '}' then ParseHyphenated(s[1..37])
    else if |s| == 45 && s[..9] == "urn:uuid:" then ParseHyphenated(s[9..])
    else ParseHyphenated(s)
  }

  lemma HexValueOfHexDigit(d: nat)
    requires d < 16
    ensures HexValue(HexDigit(d)) == Some(d)
  {
  }

  lemma {:induction false} ParseHexOfHex(b: seq<byte>)
    ensures ParseHex(Hex(b)) == Some(b)
  {
    if b != [] {
      var s := Hex(b);
      assert s[2..] == Hex(b[1..]);
      ParseHexOfHex(b[1..]);
      HexValueOfHexDigit(b[0] / 16);
      HexValueOfHexDigit(b[0] % 16);
      assert b[0] / 16 * 16 + b[0] % 16 == b[0];
      assert b == [b[0]] + b[1..];
    }
  }

  /** The printed form of every UUID parses back to it. */
  lemma ParseOfToText(id: Uuid)
    ensures Parse(ToText(id)) == Some(id)
  {
    ParseHexOfHex(id);
    UnhyphenateOfHyphenate(Hex(id));
  }

  lemma ToTextIsInjective(a: Uuid, b: Uuid)
    requires ToText(a) == ToText(b)
    ensures a == b
  {
    ParseOfToText(a);
    ParseOfToText(b);
  }

  predicate IsUuidChar(c: char) {
    HexValue(c).Some? || c in "-{}urn:id"
  }

  lemma ToTextChars(id: Uuid)
    ensures forall c | c in ToText(id) :: IsUuidChar(c)
  {
    assert IsUuidChar('-');
  }

  lemma HyphenatedChars(s: string)
    requires ParseHyphenated(s).Some?
    ensures forall c | c in s :: IsUuidChar(c)
  {
  }

  /** No accepted spelling contains a double quote, a line break or any other delimiter of the wire format. */
  lemma ParsedChars(s: string)
    requires Parse(s).Some?
    ensures forall c | c in s :: IsUuidChar(c)
  {
    if |s| == 32 {
    } else if |s| == 38 && s[0] == '{' && s[37] == '}' {
      HyphenatedChars(s[1..37]);
      assert s == [s[0]] + s[1..37] + [s[37]];
    } else if |s| == 45 && s[..9] == "urn:uuid:" {
      HyphenatedChars(s[9..]);
      assert s == s[..9] + s[9..];
      assert forall c | c in s[..9] :: c in "-{}urn:id";
    } else {
      HyphenatedChars(s);
    }
  }

  // ---------------------------------------------------------------- canonical and other spellings

  predicate NoCapitals(s: string) {
    forall c | c in s :: !('A' <= c <= 'F')
  }

  /** The characters of the lower-case hyphenated spelling of a text that already parses. */
  predicate CanonicalSpelling(s: string) {
    |s| == 36 && NoCapitals(s)
  }

  lemma HexOfCons(b: byte, rest: seq<byte>)
    ensures Hex([b] + rest) == [HexDigit(b / 16), HexDigit(b % 16)] + Hex(rest)
  {
    assert ([b] + rest)[1..] == rest;
  }

  /** The byte of two digits splits back into them. */
  lemma HexByte(high: char, low: char) returns (b: byte)
    requires HexValue(high).Some? && HexValue(low).Some?
    requires !('A' <= high <= 'F') && !('A' <= low <= 'F')
    ensures b == HexValue(high).value * 16 + HexValue(low).value
    ensures [HexDigit(b / 16), HexDigit(b % 16)] == [high, low]
  {
    b := HexValue(high).value * 16 + HexValue(low).value;
    assert b / 16 == HexValue(high).value && b % 16 == HexValue(low).value;
  }

  lemma {:induction false} HexOfParseHex(s: string)
    requires ParseHex(s).Some? && NoCapitals(s)
    ensures Hex(ParseHex(s).value) == s
  {
    if s == "" {
    } else {
      assert s[0] in s && s[1] in s && forall c | c in s[2..] :: c in s;
      HexOfParseHex(s[2..]);
      var b := HexByte(s[0], s[1]);
      HexOfCons(b, ParseHex(s[2..]).value);
      assert ParseHex(s).value == [b] + ParseHex(s[2..]).value;
      assert s == [s[0], s[1]] + s[2..];
    }
  }

  /** Printing inverts parsing exactly on the canonical spelling. */
  lemma CanonicalSpellingDecision(s: string)
    requires Parse(s).Some?
    ensures ToText(Parse(s).value) == s <==> CanonicalSpelling(s)
  {
    if CanonicalSpelling(s) {
      HexOfParseHex(Unhyphenate(s));
      HyphenateOfUnhyphenate(s);
    }
  }

  lemma ParseOfBraced(s: string)
    requires |s| == 36
    ensures Parse("{" + s + "}") == ParseHyphenated(s)
  {
    assert ("{" + s + "}")[1..37] == s;
  }

  lemma ParseOfUrn(s: string)
    requires |s| == 36
    ensures Parse("urn:uuid:" + s) == ParseHyphenated(s)
  {
    assert ("urn:uuid:" + s)[9..] == s && ("urn:uuid:" + s)[..9] == "urn:uuid:";
  }

  /** Every UUID is also accepted without hyphens, in braces and as a URN. */
  lemma OtherSpellings(id: Uuid)
    ensures Parse(Hex(id)) == Some(id)
    ensures Parse("{" + ToText(id) + "}") == Some(id)
    ensures Parse("urn:uuid:" + ToText(id)) == Some(id)
  {
    ParseHexOfHex(id);
    UnhyphenateOfHyphenate(Hex(id));
    ParseOfBraced(ToText(id));
    ParseOfUrn(ToText(id));
  }

  /** No accepted text is the only spelling of its UUID: it is not both in braces and a URN. */
  lemma AnotherSpelling(s: string) returns (u: string)
    requires Parse(s).Some?
    ensures u != s && Parse(u) == Parse(s)
  {
    var id := Parse(s).value;
    OtherSpellings(id);
    u := if s == "{" + ToText(id) + "}" then "urn:uuid:" + ToText(id) else "{" + ToText(id) + "}";
    assert |"{" + ToText(id) + "}"| == 38 && |"urn:uuid:" + ToText(id)| == 45;
  }

  // ---------------------------------------------------------------- the accepted spellings, character by character

  /** A hexadecimal digit of this value, in either case. */
  predicate Denotes(c: char, v: nat) {
    v < 16 && (c == "0123456789abcdef"[v] || c == "0123456789ABCDEF"[v])
  }

  /** Thirty-two digits, two a byte, the high half first. */
  predicate DigitsOf(h: string, id: Uuid) {
    |h| == 32 && forall j | 0 <= j < 16 :: Denotes(h[2 * j], id[j] / 16) && Denotes(h[2 * j + 1], id[j] % 16)
  }

  /** The digits in groups of 8, 4, 4, 4 and 12. */
  function Grouped(h: string): (s: string)
    requires |h| == 32
  {
    h[..8] + "-" + h[8..12] + "-" + h[12..16] + "-" + h[16..20] + "-" + h[20..32]
  }

  /** The four spellings of these digits. */
  predicate Shaped(s: string, h: string) {
    |h| == 32 && (s == h || s == Grouped(h) || s == "{" + Grouped(h) + "}" || s == "urn:uuid:" + Grouped(h))
  }

  ghost predicate Spells(s: string, id: Uuid) {
    exists h :: DigitsOf(h, id) && Shaped(s, h)
  }

  /** Thirty-two hexadecimal digits of either case in one of the four spellings. */
  ghost predicate UuidText(s: string) {
    exists h :: Shaped(s, h) && forall c | c in h :: '0' <= c <= '9' || 'a' <= c <= 'f' || 'A' <= c <= 'F'
  }

  lemma HexValueDecision(c: char, v: nat)
    ensures HexValue(c) == Some(v) <==> Denotes(c, v)
  {
  }

  lemma {:induction false} ParseHexAt(s: string, j: nat)
    requires ParseHex(s).Some? && 2 * j < |s|
    ensures 2 * j + 1 < |s|
    ensures HexValue(s[2 * j]) == Some(ParseHex(s).value[j] / 16)
    ensures HexValue(s[2 * j + 1]) == Some(ParseHex(s).value[j] % 16)
  {
    if j > 0 {
      ParseHexAt(s[2..], j - 1);
    }
  }

  lemma {:induction false} ParseHexOfDigits(s: string)
    requires |s| % 2 == 0 && forall c | c in s :: HexValue(c).Some?
    ensures ParseHex(s).Some?
  {
    if s != "" {
      assert s[0] in s && s[1] in s && forall c | c in s[2..] :: c in s;
      ParseHexOfDigits(s[2..]);
    }
  }

  lemma ParseOfDigits(h: string, id: Uuid)
    requires DigitsOf(h, id)
    ensures ParseHex(h) == Some(id)
  {
    forall c | c in h ensures HexValue(c).Some? {
      var k :| 0 <= k < 32 && h[k] == c;
      assert k == 2 * (k / 2) || k == 2 * (k / 2) + 1;
      HexValueDecision(c, if k % 2 == 0 then id[k / 2] / 16 else id[k / 2] % 16);
    }
    ParseHexOfDigits(h);
    var b := ParseHex(h).value;
    forall j | 0 <= j < 16 ensures b[j] == id[j] {
      ParseHexAt(h, j);
      HexValueDecision(h[2 * j], id[j] / 16);
      HexValueDecision(h[2 * j + 1], id[j] % 16);
    }
    assert b == id;
  }

  lemma DigitsOfParse(h: string, id: Uuid)
    requires ParseHex(h) == Some(id)
    ensures DigitsOf(h, id)
  {
    forall j | 0 <= j < 16 ensures Denotes(h[2 * j], id[j] / 16) && Denotes(h[2 * j + 1], id[j] % 16) {
      ParseHexAt(h, j);
      HexValueDecision(h[2 * j], id[j] / 16);
      HexValueDecision(h[2 * j + 1], id[j] % 16);
    }
  }

  /** The digits between the hyphens of an accepted text, and the shape around them. */
  lemma HyphenatedIsGrouped(s: string)
    requires HasHyphens(s)
    ensures s == Grouped(Unhyphenate(s))
  {
    HyphenateOfUnhyphenate(s);
    assert Unhyphenate(s)[20..32] == Unhyphenate(s)[20..];
  }

  lemma ParseOfGrouped(h: string, id: Uuid)
    requires DigitsOf(h, id)
    ensures ParseHyphenated(Grouped(h)) == Some(id)
  {
    assert h[20..32] == h[20..];
    UnhyphenateOfHyphenate(h);
    ParseOfDigits(h, id);
  }

  lemma SpelledIsParsed(s: string, h: string, id: Uuid)
    requires DigitsOf(h, id) && Shaped(s, h)
    ensures Parse(s) == Some(id)
  {
    ParseOfGrouped(h, id);
    ParseOfDigits(h, id);
    ParseOfBraced(Grouped(h));
    ParseOfUrn(Grouped(h));
  }

  lemma ParsedIsSpelled(s: string) returns (h: string)
    requires Parse(s).Some?
    ensures DigitsOf(h, Parse(s).value) && Shaped(s, h)
  {
    var inner := s;
    if |s| == 32 {
      h := s;
    } else {
      if |s| == 38 && s[0] == '{' && s[37] == '}' {
        inner := s[1..37];
        assert s == "{" + inner + "}";
      } else if |s| == 45 && s[..9] == "urn:uuid:" {
        inner := s[9..];
        assert s == "urn:uuid:" + inner;
      }
      h := Unhyphenate(inner);
      HyphenatedIsGrouped(inner);
    }
    DigitsOfParse(h, Parse(s).value);
  }

  /** Parsing accepts exactly the four spellings of a UUID's digits, and gives that UUID. */
  lemma ParseDecision(s: string, id: Uuid)
    ensures Parse(s) == Some(id) <==> Spells(s, id)
  {
    if Parse(s) == Some(id) {
      var _ := ParsedIsSpelled(s);
    } else if h :| DigitsOf(h, id) && Shaped(s, h) {
      SpelledIsParsed(s, h, id);
    }
  }

  /** Refusals, too: a text parses if and only if it is 32 hexadecimal digits in one of the four spellings. */
  lemma UuidTextDecision(s: string)
    ensures Parse(s).Some? <==> UuidText(s)
  {
    if Parse(s).Some? {
      var h := ParsedIsSpelled(s);
      DigitsAreHexadecimal(h, Parse(s).value);
    } else if h :| Shaped(s, h) && forall c | c in h :: '0' <= c <= '9' || 'a' <= c <= 'f' || 'A' <= c <= 'F' {
      ParseHexOfDigits(h);
      DigitsOfParse(h, ParseHex(h).value);
      SpelledIsParsed(s, h, ParseHex(h).value);
    }
  }

  lemma DigitsAreHexadecimal(h: string, id: Uuid)
    requires DigitsOf(h, id)
    ensures forall c | c in h :: '0' <= c <= '9' || 'a' <= c <= 'f' || 'A' <= c <= 'F'
  {
    ParseOfDigits(h, id);
  }

  /** The printed text is the one spelling of 36 characters without capital digits. */
  lemma ToTextDecision(s: string, id: Uuid)
    ensures s == ToText(id) <==> Spells(s, id) && |s| == 36 && forall c | c in s :: !('A' <= c <= 'F')
  {
    ParseOfToText(id);
    ParseDecision(s, id);
    if Parse(s) == Some(id) {
      CanonicalSpellingDecision(s);
    }
  }
}
