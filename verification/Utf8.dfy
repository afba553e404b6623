/** UTF-8 (RFC 3629): the bytes of a text, and the strict decoder that recovers a text from bytes. */
module Utf8 {
  import opened Errors
  import opened Int64
  import opened Text

  /** The bytes of one character: a lead byte that tells the width, then six bits a byte. */
  function EncodeChar(c: char): (bytes: seq<byte>)
    ensures 1 <= |bytes| <= 4
  {
    var v := c as int;
    if v < 0x80 then [v]
    else if v < 0x800 then Bytes2(v)
    else if v < 0x1_0000 then Bytes3(v)
    else Bytes4(v)
  }

  function Bytes2(v: nat): (bytes: seq<byte>)
    requires v < 0x800
    ensures |bytes| == 2
  {
    [0xc0 + v / 64, 0x80 + v % 64]
  }

  function Bytes3(v: nat): (bytes: seq<byte>)
    requires v < 0x1_0000
    ensures |bytes| == 3
  {
    [0xe0 + v / 64 / 64, 0x80 + v / 64 % 64, 0x80 + v % 64]
  }

  function Bytes4(v: nat): (bytes: seq<byte>)
    requires v < 0x20_0000
    ensures |bytes| == 4
  {
    [0xf0 + v / 64 / 64 / 64, 0x80 + v / 64 / 64 % 64, 0x80 + v / 64 % 64, 0x80 + v % 64]
  }

  /** The bytes of a text, as the standard library stores and measures it. */
  function Encode(s: string): (bytes: seq<byte>) {
    if s == "" then [] else EncodeChar(s[0]) + Encode(s[1..])
  }

  predicate IsContinuation(b: int) {
    0x80 <= b < 0xc0
  }

  function Join(high: int, b: int): (v: int) {
    high * 64 + (b - 0x80)
  }

  lemma JoinSplits(high: int, b: int)
    requires IsContinuation(b)
    ensures Join(high, b) / 64 == high && Join(high, b) % 64 == b - 0x80
  {
  }

  function Char2(b0: byte, b1: byte): (r: Option<char>) {
    if 0xc2 <= b0 < 0xe0 && IsContinuation(b1) then Some(Join(b0 - 0xc0, b1) as char) else None
  }

  /** Overlong forms and surrogates are refused. */
  function Char3(b0: byte, b1: byte, b2: byte): (r: Option<char>) {
    if 0xe0 <= b0 < 0xf0 && IsContinuation(b1) && IsContinuation(b2) then
      var v := Join(Join(b0 - 0xe0, b1), b2);
      if v < 0x800 || 0xd800 <= v < 0xe000 then None else Some(v as char)
    else None
  }

  /** Overlong forms and values past U+10FFFF are refused. */
  function Char4(b0: byte, b1: byte, b2: byte, b3: byte): (r: Option<char>) {
    if 0xf0 <= b0 < 0xf8 && IsContinuation(b1) && IsContinuation(b2) && IsContinuation(b3) then
      var v := Join(Join(Join(b0 - 0xf0, b1), b2), b3);
      if v < 0x1_0000 || v > 0x10_ffff then None else Some(v as char)
    else None
  }

  lemma EncodeOfChar2(b0: byte, b1: byte)
    requires Char2(b0, b1).Some?
    ensures EncodeChar(Char2(b0, b1).value) == [b0, b1]
  {
    JoinSplits(b0 - 0xc0, b1);
  }

  lemma Bytes3OfDigits(d0: nat, d1: nat, d2: nat)
    requires d0 < 16 && d1 < 64 && d2 < 64
    ensures var v := (d0 * 64 + d1) * 64 + d2;
            v < 0x1_0000 && Bytes3(v) == [0xe0 + d0, 0x80 + d1, 0x80 + d2]
  {
    var h := d0 * 64 + d1;
    var v := h * 64 + d2;
    assert h < 1024 && h / 64 == d0 && h % 64 == d1;
    assert v / 64 == h && v % 64 == d2;
  }

  lemma Bytes4OfDigits(d0: nat, d1: nat, d2: nat, d3: nat)
    requires d0 < 8 && d1 < 64 && d2 < 64 && d3 < 64
    ensures var v := ((d0 * 64 + d1) * 64 + d2) * 64 + d3;
            v < 0x20_0000 && Bytes4(v) == [0xf0 + d0, 0x80 + d1, 0x80 + d2, 0x80 + d3]
  {
    var g := d0 * 64 + d1;
    var h := g * 64 + d2;
    var v := h * 64 + d3;
    assert g < 512 && g / 64 == d0 && g % 64 == d1;
    assert h < 32768 && h / 64 == g && h % 64 == d2;
    assert v / 64 == h && v % 64 == d3;
  }

  lemma EncodeOfChar3(b0: byte, b1: byte, b2: byte)
    requires Char3(b0, b1, b2).Some?
    ensures EncodeChar(Char3(b0, b1, b2).value) == [b0, b1, b2]
  {
    Bytes3OfDigits(b0 - 0xe0, b1 - 0x80, b2 - 0x80);
  }

  lemma EncodeOfChar4(b0: byte, b1: byte, b2: byte, b3: byte)
    requires Char4(b0, b1, b2, b3).Some?
    ensures EncodeChar(Char4(b0, b1, b2, b3).value) == [b0, b1, b2, b3]
  {
    Bytes4OfDigits(b0 - 0xf0, b1 - 0x80, b2 - 0x80, b3 - 0x80);
  }

  lemma CharOfEncode(c: char)
    ensures var b := EncodeChar(c);
            && (|b| == 1 ==> b[0] == c as int < 0x80)
            && (|b| == 2 ==> Char2(b[0], b[1]) == Some(c))
            && (|b| == 3 ==> Char3(b[0], b[1], b[2]) == Some(c))
            && (|b| == 4 ==> Char4(b[0], b[1], b[2], b[3]) == Some(c))
  {
    var v := c as int;
    var b := EncodeChar(c);
    if |b| == 2 {
      assert Join(b[0] - 0xc0, b[1]) == v;
    } else if |b| == 3 {
      assert Join(b[0] - 0xe0, b[1]) == v / 64;
    } else if |b| == 4 {
      assert Join(b[0] - 0xf0, b[1]) == v / 64 / 64;
      assert Join(v / 64 / 64, b[2]) == v / 64;
    }
  }

  /** The first character and its width. */
  function DecodeChar(bytes: seq<byte>): (r: Option<(char, nat)>)
    ensures r.Some? ==> 1 <= r.value.1 <= |bytes|
  {
    if |bytes| >= 1 && bytes[0] < 0x80 then Some((bytes[0] as char, 1))
    else if |bytes| >= 2 && bytes[0] < 0xe0 then
      var c :- Char2(bytes[0], bytes[1]);
      Some((c, 2))
    else if |bytes| >= 3 && 0xe0 <= bytes[0] < 0xf0 then
      var c :- Char3(bytes[0], bytes[1], bytes[2]);
      Some((c, 3))
    else if |bytes| >= 4 && 0xf0 <= bytes[0] then
      var c :- Char4(bytes[0], bytes[1], bytes[2], bytes[3]);
      Some((c, 4))
    else None
  }

  function Decode(bytes: seq<byte>): (r: Option<string>) {
    if bytes == [] then Some("")
    else
      var (c, width) :- DecodeChar(bytes);
      var rest :- Decode(bytes[width..]);
      Some([c] + rest)
  }

  lemma DecodeCharOfEncodeChar(c: char, rest: seq<byte>)
    ensures DecodeChar(EncodeChar(c) + rest) == Some((c, |EncodeChar(c)|))
  {
    var head := EncodeChar(c);
    CharOfEncode(c);
    assert forall k | 0 <= k < |head| :: (head + rest)[k] == head[k];
  }

  lemma EncodeCharOfDecodeChar(bytes: seq<byte>)
    requires DecodeChar(bytes).Some?
    ensures EncodeChar(DecodeChar(bytes).value.0) == bytes[..DecodeChar(bytes).value.1]
  {
    var width := DecodeChar(bytes).value.1;
    if width == 2 {
      EncodeOfChar2(bytes[0], bytes[1]);
    } else if width == 3 {
      EncodeOfChar3(bytes[0], bytes[1], bytes[2]);
    } else if width == 4 {
      EncodeOfChar4(bytes[0], bytes[1], bytes[2], bytes[3]);
    }
  }

  lemma {:induction false} DecodeOfEncode(s: string)
    ensures Decode(Encode(s)) == Some(s)
  {
    if s == "" {
    } else {
      var first := EncodeChar(s[0]);
      DecodeCharOfEncodeChar(s[0], Encode(s[1..]));
      assert Encode(s)[|first|..] == Encode(s[1..]);
      DecodeOfEncode(s[1..]);
      assert s == [s[0]] + s[1..];
    }
  }

  lemma EncodeOfCons(c: char, rest: string)
    ensures Encode([c] + rest) == EncodeChar(c) + Encode(rest)
  {
    assert ([c] + rest)[1..] == rest;
  }

  lemma DecodeSplits(bytes: seq<byte>) returns (c: char, tail: seq<byte>)
    requires bytes != [] && Decode(bytes).Some?
    ensures bytes == EncodeChar(c) + tail && |tail| < |bytes|
    ensures Decode(tail).Some? && Decode(bytes).value == [c] + Decode(tail).value
  {
    var width := DecodeChar(bytes).value.1;
    c, tail := DecodeChar(bytes).value.0, bytes[width..];
    EncodeCharOfDecodeChar(bytes);
    assert bytes == bytes[..width] + tail;
  }

  lemma {:induction false} EncodeOfDecode(bytes: seq<byte>)
    requires Decode(bytes).Some?
    ensures Encode(Decode(bytes).value) == bytes
    decreases |bytes|
  {
    if bytes == [] {
    } else {
      var c, tail := DecodeSplits(bytes);
      EncodeOfDecode(tail);
      EncodeOfCons(c, Decode(tail).value);
    }
  }

  /** A text is determined by its bytes. */
  lemma EncodeIsInjective(s: string, t: string)
    requires Encode(s) == Encode(t)
    ensures s == t
  {
    DecodeOfEncode(s);
    DecodeOfEncode(t);
  }

  lemma {:induction false} EncodeOfConcat(s: string, t: string)
    ensures Encode(s + t) == Encode(s) + Encode(t)
  {
    if s == "" {
      assert s + t == t;
    } else {
      assert (s + t)[0] == s[0] && (s + t)[1..] == s[1..] + t;
      EncodeOfConcat(s[1..], t);
    }
  }

  predicate IsAscii(s: string) {
    forall k | 0 <= k < |s| :: s[k] as int < 0x80
  }

  /** ASCII text is its own character codes. */
  lemma {:induction false} EncodeOfAscii(s: string)
    requires IsAscii(s)
    ensures |Encode(s)| == |s| && forall k | 0 <= k < |s| :: Encode(s)[k] == s[k] as int
  {
    if s == "" {
    } else {
      EncodeOfAscii(s[1..]);
      assert Encode(s) == [s[0] as int] + Encode(s[1..]);
    }
  }

  // ---------------------------------------------------------------- texts inside longer byte strings

  /** Behind a text, the rest decodes on its own. */
  lemma {:induction false} DecodeAfterText(s: string, rest: seq<byte>)
    ensures Decode(Encode(s) + rest).Some? <==> Decode(rest).Some?
  {
    if s == "" {
      assert Encode(s) + rest == rest;
    } else {
      var tail := Encode(s[1..]) + rest;
      assert Encode(s) + rest == EncodeChar(s[0]) + tail;
      DecodeOfCons(s[0], tail);
      DecodeAfterText(s[1..], rest);
    }
  }

  lemma DecodeOfCons(c: char, tail: seq<byte>)
    ensures Decode(EncodeChar(c) + tail).Some? <==> Decode(tail).Some?
  {
    DecodeCharOfEncodeChar(c, tail);
    assert (EncodeChar(c) + tail)[|EncodeChar(c)|..] == tail;
  }

  lemma ContinuationsFollow(c: char)
    ensures !IsContinuation(EncodeChar(c)[0])
    ensures forall k | 1 <= k < |EncodeChar(c)| :: IsContinuation(EncodeChar(c)[k])
  {
  }

  lemma TextStartsACharacter(s: string)
    requires s != ""
    ensures Encode(s) != [] && !IsContinuation(Encode(s)[0])
  {
    ContinuationsFollow(s[0]);
  }

  /** A character does not reach over the start of another one. */
  lemma CharacterFits(head: seq<byte>, tail: seq<byte>, front: seq<byte>, back: seq<byte>)
    requires head + tail == front + back && front != [] && back != [] && !IsContinuation(back[0])
    requires forall k | 1 <= k < |head| :: IsContinuation(head[k])
    ensures |head| <= |front| && front == head + front[|head|..] && tail == front[|head|..] + back
  {
    assert (front + back)[|front|] == back[0];
    assert forall k | 1 <= k < |head| :: (head + tail)[k] == head[k];
    assert |head| <= |front|;
    assert head == (front + back)[..|head|] == front[..|head|];
    assert tail == (front + back)[|head|..];
  }

  /** Bytes in front of the start of a character decode on their own. */
  lemma {:induction false} DecodeBeforeBoundary(front: seq<byte>, back: seq<byte>)
    requires Decode(front + back).Some? && back != [] && !IsContinuation(back[0])
    ensures Decode(front).Some?
    decreases |front|
  {
    if front != [] {
      var c, tail := DecodeSplits(front + back);
      var rest := FrontWithout(c, tail, front, back);
      DecodeBeforeBoundary(rest, back);
      DecodeOfCons(c, rest);
    }
  }

  lemma FrontWithout(c: char, tail: seq<byte>, front: seq<byte>, back: seq<byte>) returns (rest: seq<byte>)
    requires front + back == EncodeChar(c) + tail && front != [] && back != [] && !IsContinuation(back[0])
    ensures front == EncodeChar(c) + rest && tail == rest + back && |rest| < |front|
  {
    ContinuationsFollow(c);
    CharacterFits(EncodeChar(c), tail, front, back);
    rest := front[|EncodeChar(c)|..];
  }

  // ---------------------------------------------------------------- tests applied byte by byte

  predicate AllBytes(s: string, test: byte -> bool) {
    forall b | b in Encode(s) :: test(b)
  }

  predicate AllAscii(s: string, test: byte -> bool) {
    forall c | c in s :: c as int < 0x80 && test(c as int)
  }

  lemma AllAsciiOfHead(s: string, test: byte -> bool)
    requires s != ""
    ensures AllAscii(s, test) <==> s[0] as int < 0x80 && test(s[0] as int) && AllAscii(s[1..], test)
  {
    assert s[0] in s;
    assert forall c | c in s[1..] :: c in s;
    forall c | c in s ensures c == s[0] || c in s[1..] {
      var k :| 0 <= k < |s| && s[k] == c;
      if k > 0 {
        assert s[1..][k - 1] == c;
      }
    }
  }

  /** A byte test that refuses everything above ASCII is a test on the characters, and byte and character counts agree. */
  lemma {:induction false} AsciiTest(s: string, test: byte -> bool)
    requires forall b: byte :: 0x80 <= b ==> !test(b)
    ensures AllBytes(s, test) <==> AllAscii(s, test)
    ensures AllBytes(s, test) ==> |Encode(s)| == |s|
  {
    if s == "" {
    } else {
      var first := EncodeChar(s[0]);
      AsciiTest(s[1..], test);
      AllAsciiOfHead(s, test);
      assert AllBytes(s, test) <==> (forall b | b in first :: test(b)) && AllBytes(s[1..], test);
      if s[0] as int < 0x80 {
        assert s[0] as int in first;
        assert (forall b | b in first :: test(b)) <==> test(s[0] as int);
      } else {
        assert first[0] in first && !test(first[0]);
      }
    }
  }

  // ---------------------------------------------------------------- the table of the standard

  /** What a byte carries behind its mark. */
  function Carried(b: int, mark: int): (v: int) {
    b - mark
  }

  /** The four rows of the table in section 3 of RFC 3629: lead byte, continuation bytes and the bits they carry. */
  predicate EncodesTo(c: char, b: seq<byte>) {
    var v := c as int;
    if v <= 0x7f then |b| == 1 && b[0] == v
    else if v <= 0x7ff then
      && |b| == 2 && 0xc0 <= b[0] <= 0xdf && 0x80 <= b[1] <= 0xbf
      && v == Carried(b[0], 0xc0) * 0x40 + Carried(b[1], 0x80)
    else if v <= 0xffff then
      && |b| == 3 && 0xe0 <= b[0] <= 0xef && 0x80 <= b[1] <= 0xbf && 0x80 <= b[2] <= 0xbf
      && v == Carried(b[0], 0xe0) * 0x1000 + Carried(b[1], 0x80) * 0x40 + Carried(b[2], 0x80)
    else
      && |b| == 4 && 0xf0 <= b[0] <= 0xf7 && 0x80 <= b[1] <= 0xbf && 0x80 <= b[2] <= 0xbf && 0x80 <= b[3] <= 0xbf
      && v == Carried(b[0], 0xf0) * 0x4_0000 + Carried(b[1], 0x80) * 0x1000 + Carried(b[2], 0x80) * 0x40 + Carried(b[3], 0x80)
  }

  /** Every character is encoded by the table, and the bytes of a text are those of its characters in order. */
  lemma EncodeFollowsTheTable(c: char, rest: string)
    ensures EncodesTo(c, EncodeChar(c)) && Encode([c] + rest) == EncodeChar(c) + Encode(rest)
  {
    EncodeOfCons(c, rest);
  }

  lemma ThreeByteRow(c: char, b: seq<byte>)
    requires EncodesTo(c, b) && |b| == 3
    ensures b == EncodeChar(c)
  {
    Bytes3OfDigits(b[0] - 0xe0, b[1] - 0x80, b[2] - 0x80);
  }

  lemma FourByteRow(c: char, b: seq<byte>)
    requires EncodesTo(c, b) && |b| == 4
    ensures b == EncodeChar(c)
  {
    Bytes4OfDigits(b[0] - 0xf0, b[1] - 0x80, b[2] - 0x80, b[3] - 0x80);
  }

  /** The table leaves no choice. */
  lemma TableIsExact(c: char, b: seq<byte>)
    ensures EncodesTo(c, b) <==> b == EncodeChar(c)
  {
    EncodeFollowsTheTable(c, "");
    if EncodesTo(c, b) && |b| == 3 {
      ThreeByteRow(c, b);
    } else if EncodesTo(c, b) && |b| == 4 {
      FourByteRow(c, b);
    }
  }
}
