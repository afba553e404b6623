/** Base64 (sections 3.5, 4 and 5 of RFC 4648) as the two strict engines the crate uses. */
module Base64 {
  import opened Errors
  import opened Int64

  /** STANDARD pads with '=' and uses '+' and '/'; URL_SAFE_NO_PAD never pads and uses '-' and '_'. */
  datatype Engine = STANDARD | URL_SAFE_NO_PAD

  function CharOf(engine: Engine, v: nat): (c: char)
    requires v < 64
  {
    if v < 26 then ('A' as int + v) as char
    else if v < 52 then ('a' as int + (v - 26)) as char
    else if v < 62 then ('0' as int + (v - 52)) as char
    else if v == 62 then (if engine.STANDARD? then '+' else '-')
    else (if engine.STANDARD? then '/' else '_')
  }

  function ValueOf(engine: Engine, c: char): (r: Option<nat>)
    ensures r.Some? ==> r.value < 64 && CharOf(engine, r.value) == c
  {
    if 'A' <= c <= 'Z' then Some(c as int - 'A' as int)
    else if 'a' <= c <= 'z' then Some(c as int - 'a' as int + 26)
    else if '0' <= c <= '9' then Some(c as int - '0' as int + 52)
    else if c == CharOf(engine, 62) then Some(62)
    else if c == CharOf(engine, 63) then Some(63)
    else None
  }

  predicate InAlphabet(engine: Engine, c: char) {
    || 'A' <= c <= 'Z' || 'a' <= c <= 'z' || '0' <= c <= '9'
    || (engine.STANDARD? && c in "+/=")
    || (engine.URL_SAFE_NO_PAD? && c in "-_")
  }

  datatype Sextets = Sextets(v0: nat, v1: nat, v2: nat, v3: nat)

  predicate InRange(v: Sextets) {
    v.v0 < 64 && v.v1 < 64 && v.v2 < 64 && v.v3 < 64
  }

  /** Three bytes as four six-bit digits, most significant first. */
  function Split(b0: byte, b1: byte, b2: byte): (v: Sextets)
    ensures InRange(v)
  {
    Sextets(b0 / 4, b0 % 4 * 16 + b1 / 16, b1 % 16 * 4 + b2 / 64, b2 % 64)
  }

  function Merge(v: Sextets): (b: seq<byte>)
    requires InRange(v)
    ensures |b| == 3
  {
    [v.v0 * 4 + v.v1 / 16, v.v1 % 16 * 16 + v.v2 / 4, v.v2 % 4 * 64 + v.v3]
  }

  lemma MergeOfSplit(b0: byte, b1: byte, b2: byte)
    ensures Merge(Split(b0, b1, b2)) == [b0, b1, b2]
  {
    var v := Split(b0, b1, b2);
    assert v.v1 / 16 == b0 % 4 && v.v1 % 16 == b1 / 16;
    assert v.v2 / 4 == b1 % 16 && v.v2 % 4 == b2 / 64;
  }

  lemma SplitOfMerge(v: Sextets)
    requires InRange(v)
    ensures Split(Merge(v)[0], Merge(v)[1], Merge(v)[2]) == v
  {
    var b := Merge(v);
    assert b[0] / 4 == v.v0 && b[0] % 4 == v.v1 / 16;
    assert b[1] / 16 == v.v1 % 16 && b[1] % 16 == v.v2 / 4;
    assert b[2] / 64 == v.v2 % 4 && b[2] % 64 == v.v3;
  }

  function Chars(engine: Engine, v: Sextets): (s: string)
    requires InRange(v)
    ensures |s| == 4
  {
    [CharOf(engine, v.v0), CharOf(engine, v.v1), CharOf(engine, v.v2), CharOf(engine, v.v3)]
  }

  function Values(engine: Engine, s: string): (r: Option<Sextets>)
    requires |s| == 4
    ensures r.Some? ==> InRange(r.value) && Chars(engine, r.value) == s
  {
    var v0 :- ValueOf(engine, s[0]);
    var v1 :- ValueOf(engine, s[1]);
    var v2 :- ValueOf(engine, s[2]);
    var v3 :- ValueOf(engine, s[3]);
    Some(Sextets(v0, v1, v2, v3))
  }

  /** The last one or two bytes: as many digits as they need, then the engine's padding. */
  function EncodeTail(engine: Engine, b: seq<byte>): (s: string)
    requires 1 <= |b| <= 2
  {
    if |b| == 1 then
      Chars(engine, Split(b[0], 0, 0))[..2] + (if engine.STANDARD? then "==" else "")
    else
      Chars(engine, Split(b[0], b[1], 0))[..3] + (if engine.STANDARD? then "=" else "")
  }

  function Encode(engine: Engine, b: seq<byte>): (s: string) {
    if |b| == 0 then ""
    else if |b| < 3 then EncodeTail(engine, b)
    else Quantum(engine, b[0], b[1], b[2]) + Encode(engine, b[3..])
  }

  function Quantum(engine: Engine, b0: byte, b1: byte, b2: byte): (s: string)
    ensures |s| == 4
  {
    Chars(engine, Split(b0, b1, b2))
  }

  /** The digits of the last quantum once its padding is removed; padding must be exact for the engine. */
  function Unpad(engine: Engine, s: string): (r: Option<string>) {
    if engine.URL_SAFE_NO_PAD? then Some(s)
    else if |s| == 4 && s[2] == '=' && s[3] == '=' then Some(s[..2])
    else if |s| == 4 && s[3] == '=' then Some(s[..3])
    else None
  }

  /** The last one or two bytes; unused bits of the last digit must be zero. */
  function DecodeTail(engine: Engine, s: string): (r: Option<seq<byte>>) {
    var digits :- Unpad(engine, s);
    if |digits| == 2 then
      var v :- Values(engine, digits + [CharOf(engine, 0), CharOf(engine, 0)]);
      if v.v1 % 16 == 0 then Some(Merge(v)[..1]) else None
    else if |digits| == 3 then
      var v :- Values(engine, digits + [CharOf(engine, 0)]);
      if v.v2 % 4 == 0 then Some(Merge(v)[..2]) else None
    else None
  }

  function Decode(engine: Engine, s: string): (r: Option<seq<byte>>) {
    if s == "" then Some([])
    else if |s| < 4 || s[3] == '=' then DecodeTail(engine, s)
    else
      var v :- Values(engine, s[..4]);
      var rest :- Decode(engine, s[4..]);
      Some(Merge(v) + rest)
  }

  lemma ValueOfCharOf(engine: Engine, v: nat)
    requires v < 64
    ensures ValueOf(engine, CharOf(engine, v)) == Some(v)
    ensures CharOf(engine, v) != '=' && InAlphabet(engine, CharOf(engine, v))
  {
  }

  lemma ValuesOfChars(engine: Engine, v: Sextets)
    requires InRange(v)
    ensures Values(engine, Chars(engine, v)) == Some(v)
    ensures forall c | c in Chars(engine, v) :: c != '=' && InAlphabet(engine, c)
  {
    ValueOfCharOf(engine, v.v0);
    ValueOfCharOf(engine, v.v1);
    ValueOfCharOf(engine, v.v2);
    ValueOfCharOf(engine, v.v3);
  }

  lemma DecodeTailOfEncodeTail(engine: Engine, b: seq<byte>)
    requires 1 <= |b| <= 2
    ensures DecodeTail(engine, EncodeTail(engine, b)) == Some(b)
    ensures |EncodeTail(engine, b)| == if engine.STANDARD? then 4 else |b| + 1
    ensures engine.STANDARD? ==> EncodeTail(engine, b)[3] == '='
    ensures forall c | c in EncodeTail(engine, b) :: InAlphabet(engine, c)
  {
    var v := Split(b[0], if |b| == 1 then 0 else b[1], 0);
    var s := EncodeTail(engine, b);
    var chars := Chars(engine, v);
    ValuesOfChars(engine, v);
    MergeOfSplit(b[0], if |b| == 1 then 0 else b[1], 0);
    assert Unpad(engine, s) == Some(chars[..|b| + 1]) by {
      assert chars[2] in chars;
      assert s[..|b| + 1] == chars[..|b| + 1];
      if engine.URL_SAFE_NO_PAD? {
        assert s == chars[..|b| + 1];
      } else if |b| == 1 {
        assert s[2] == '=' && s[3] == '=';
      } else {
        assert s[2] == chars[2] && s[3] == '=';
      }
    }
    if |b| == 1 {
      assert chars[..2] + [CharOf(engine, 0), CharOf(engine, 0)] == chars;
      assert Merge(v)[..1] == b;
    } else {
      assert chars[..3] + [CharOf(engine, 0)] == chars;
      assert Merge(v)[..2] == b;
    }
  }

  lemma EncodeTailOfDecodeTail(engine: Engine, s: string)
    requires DecodeTail(engine, s).Some?
    ensures 1 <= |DecodeTail(engine, s).value| <= 2
    ensures EncodeTail(engine, DecodeTail(engine, s).value) == s
  {
    var digits := Unpad(engine, s).value;
    var b := DecodeTail(engine, s).value;
    if |digits| == 2 {
      var v := Values(engine, digits + [CharOf(engine, 0), CharOf(engine, 0)]).value;
      ZeroDigit(engine, v.v2);
      ZeroDigit(engine, v.v3);
      SplitOfMerge(v);
      assert Merge(v)[1] == 0 && Merge(v)[2] == 0;
      assert digits == Chars(engine, v)[..2];
    } else {
      var v := Values(engine, digits + [CharOf(engine, 0)]).value;
      ZeroDigit(engine, v.v3);
      SplitOfMerge(v);
      assert Merge(v)[2] == 0;
      assert digits == Chars(engine, v)[..3];
    }
  }

  lemma ZeroDigit(engine: Engine, v: nat)
    requires v < 64 && CharOf(engine, v) == CharOf(engine, 0)
    ensures v == 0
  {
    ValueOfCharOf(engine, v);
    ValueOfCharOf(engine, 0);
  }

  lemma DecodeOfQuantum(engine: Engine, b0: byte, b1: byte, b2: byte, rest: string)
    requires Decode(engine, rest).Some?
    ensures Decode(engine, Quantum(engine, b0, b1, b2) + rest) == Some([b0, b1, b2] + Decode(engine, rest).value)
  {
    var chars := Quantum(engine, b0, b1, b2);
    var s := chars + rest;
    ValuesOfChars(engine, Split(b0, b1, b2));
    MergeOfSplit(b0, b1, b2);
    assert chars[3] in chars;
    assert s[..4] == chars && s[3] == chars[3] && s[4..] == rest;
  }

  lemma DecodeOfShort(engine: Engine, b: seq<byte>)
    requires |b| < 3
    ensures Decode(engine, Encode(engine, b)) == Some(b)
  {
    if |b| != 0 {
      DecodeTailOfEncodeTail(engine, b);
    }
  }

  /** Decoding inverts encoding. */
  lemma {:induction false} DecodeOfEncode(engine: Engine, b: seq<byte>)
    ensures Decode(engine, Encode(engine, b)) == Some(b)
  {
    if |b| < 3 {
      DecodeOfShort(engine, b);
    } else {
      DecodeOfEncode(engine, b[3..]);
      DecodeOfQuantum(engine, b[0], b[1], b[2], Encode(engine, b[3..]));
      assert b == [b[0], b[1], b[2]] + b[3..];
    }
  }

  /** The decoders are strict: an accepted text is the one encoding of its bytes. */
  lemma {:induction false} EncodeOfDecode(engine: Engine, s: string)
    requires Decode(engine, s).Some?
    ensures Encode(engine, Decode(engine, s).value) == s
  {
    if s == "" {
    } else if |s| < 4 || s[3] == '=' {
      EncodeTailOfDecodeTail(engine, s);
    } else {
      var v := Values(engine, s[..4]).value;
      var rest := Decode(engine, s[4..]).value;
      EncodeOfDecode(engine, s[4..]);
      SplitOfMerge(v);
      assert (Merge(v) + rest)[3..] == rest;
      assert s == s[..4] + s[4..];
    }
  }

  lemma EncodeIsInjective(engine: Engine, a: seq<byte>, b: seq<byte>)
    requires Encode(engine, a) == Encode(engine, b)
    ensures a == b
  {
    DecodeOfEncode(engine, a);
    DecodeOfEncode(engine, b);
  }

  lemma QuantumChars(engine: Engine, b0: byte, b1: byte, b2: byte)
    ensures forall c | c in Quantum(engine, b0, b1, b2) :: InAlphabet(engine, c)
  {
    ValuesOfChars(engine, Split(b0, b1, b2));
  }

  /** Encodings are made of alphabet characters. */
  lemma {:induction false} EncodeChars(engine: Engine, b: seq<byte>)
    ensures forall c | c in Encode(engine, b) :: InAlphabet(engine, c)
  {
    if |b| == 0 {
    } else if |b| < 3 {
      DecodeTailOfEncodeTail(engine, b);
    } else {
      QuantumChars(engine, b[0], b[1], b[2]);
      EncodeChars(engine, b[3..]);
    }
  }

  // ---------------------------------------------------------------- the alphabet and the bits

  /** The 64 characters of tables 1 and 2 of RFC 4648. */
  function Alphabet(engine: Engine): (s: string)
    ensures |s| == 64
  {
    "ABCDEFGHIJKLMNOPQRSTUVWXYZ" + ("abcdefghijklmnopqrstuvwxyz" + ("0123456789" + (if engine.STANDARD? then "+/" else "-_")))
  }

  lemma CapitalAt(v: nat)
    requires v < 26
    ensures "ABCDEFGHIJKLMNOPQRSTUVWXYZ"[v] == ('A' as int + v) as char
  {
  }

  lemma LetterAt(v: nat)
    requires v < 26
    ensures "abcdefghijklmnopqrstuvwxyz"[v] == ('a' as int + v) as char
  {
  }

  lemma DigitAt(v: nat)
    requires v < 10
    ensures "0123456789"[v] == ('0' as int + v) as char
  {
  }

  lemma CharOfIsAlphabet(engine: Engine, v: nat)
    requires v < 64
    ensures CharOf(engine, v) == Alphabet(engine)[v]
  {
    if v < 26 {
      CapitalAt(v);
    } else if v < 52 {
      LetterAt(v - 26);
    } else if v < 62 {
      DigitAt(v - 52);
    }
  }

  /** The byte at `j`, with zeros behind the last one. */
  function ByteAt(b: seq<byte>, j: nat): (v: nat)
    ensures v < 256
  {
    if j < |b| then b[j] else 0
  }

  /** Six bits of the bytes read as one run of bits, from bit `at` on: a window of 16 bits, shifted and masked. */
  function SixBits(b: seq<byte>, at: nat): (v: nat)
    ensures v < 64
  {
    (ByteAt(b, at / 8) * 256 + ByteAt(b, at / 8 + 1)) / PowerOfTwo(10 - at % 8) % 64
  }

  function PowerOfTwo(n: int): (p: nat)
    ensures p > 0
  {
    if n <= 0 then 1 else 2 * PowerOfTwo(n - 1)
  }

  /** The number of characters that carry bits of `n` bytes. */
  function DigitCount(n: nat): (count: nat) {
    (8 * n + 5) / 6
  }

  lemma SixBitsLater(b: seq<byte>, k: nat)
    requires |b| >= 3 && k >= 4
    ensures SixBits(b, 6 * k) == SixBits(b[3..], 6 * (k - 4))
  {
    assert 6 * k == 6 * (k - 4) + 24;
    assert 6 * k / 8 == 6 * (k - 4) / 8 + 3;
  }

  lemma Powers()
    ensures PowerOfTwo(4) == 16 && PowerOfTwo(6) == 64 && PowerOfTwo(8) == 256 && PowerOfTwo(10) == 1024
  {
    assert PowerOfTwo(3) == 8;
    assert PowerOfTwo(7) == 128;
  }

  lemma Masked(high: nat, low: nat)
    requires low < 64
    ensures (high * 64 + low) % 64 == low
  {
  }

  lemma ShiftBy10(x: nat, y: nat)
    requires x < 256 && y < 256
    ensures (x * 256 + y) / 1024 % 64 == x / 4
  {
    assert (x * 256 + y) / 1024 == x / 4;
  }

  lemma ShiftBy4(x: nat, y: nat)
    requires x < 256 && y < 256
    ensures (x * 256 + y) / 16 % 64 == x % 4 * 16 + y / 16
  {
    assert (x * 256 + y) / 16 == x * 16 + y / 16;
    assert x * 16 == x / 4 * 64 + x % 4 * 16;
    Masked(x / 4, x % 4 * 16 + y / 16);
  }

  lemma ShiftBy6(x: nat, y: nat)
    requires x < 256 && y < 256
    ensures (x * 256 + y) / 64 % 64 == x % 16 * 4 + y / 64
  {
    assert (x * 256 + y) / 64 == x * 4 + y / 64;
    assert x * 4 == x / 16 * 64 + x % 16 * 4;
    Masked(x / 16, x % 16 * 4 + y / 64);
  }

  lemma ShiftBy8(x: nat, y: nat)
    requires x < 256 && y < 256
    ensures (x * 256 + y) / 256 % 64 == x % 64
  {
    assert (x * 256 + y) / 256 == x;
  }

  lemma FirstSixBits(b: seq<byte>, k: nat)
    requires k < 4
    ensures var v := Split(ByteAt(b, 0), ByteAt(b, 1), ByteAt(b, 2));
            SixBits(b, 6 * k) == if k == 0 then v.v0 else if k == 1 then v.v1 else if k == 2 then v.v2 else v.v3
  {
    Powers();
    var j := if k <= 1 then 0 else k - 1;
    assert 6 * k / 8 == j;
    ShiftBy10(ByteAt(b, j), ByteAt(b, j + 1));
    ShiftBy4(ByteAt(b, j), ByteAt(b, j + 1));
    ShiftBy6(ByteAt(b, j), ByteAt(b, j + 1));
    ShiftBy8(ByteAt(b, j), ByteAt(b, j + 1));
  }

  lemma TailDigits(engine: Engine, b: seq<byte>, k: nat)
    requires 1 <= |b| <= 2 && k <= |b|
    ensures k < |EncodeTail(engine, b)| && EncodeTail(engine, b)[k] == Alphabet(engine)[SixBits(b, 6 * k)]
  {
    FirstSixBits(b, k);
    CharOfIsAlphabet(engine, SixBits(b, 6 * k));
  }

  lemma QuantumDigits(engine: Engine, b: seq<byte>, k: nat)
    requires |b| >= 3 && k < 4
    ensures Quantum(engine, b[0], b[1], b[2])[k] == Alphabet(engine)[SixBits(b, 6 * k)]
  {
    FirstSixBits(b, k);
    CharOfIsAlphabet(engine, SixBits(b, 6 * k));
  }

  /** Character by character, an encoding is the alphabet at each six bits of the bytes in turn. */
  lemma {:induction false} EncodeAt(engine: Engine, b: seq<byte>, k: nat)
    requires k < DigitCount(|b|)
    ensures k < |Encode(engine, b)| && Encode(engine, b)[k] == Alphabet(engine)[SixBits(b, 6 * k)]
  {
    if |b| < 3 {
      TailDigits(engine, b, k);
    } else if k < 4 {
      QuantumDigits(engine, b, k);
    } else {
      EncodeAt(engine, b[3..], k - 4);
      SixBitsLater(b, k);
    }
  }

  /** Behind those characters stands the padding: none for the one engine, '=' up to whole quanta for the other. */
  lemma {:induction false} EncodePadding(engine: Engine, b: seq<byte>)
    ensures |Encode(engine, b)| == if engine.STANDARD? then (|b| + 2) / 3 * 4 else DigitCount(|b|)
    ensures forall k | DigitCount(|b|) <= k < |Encode(engine, b)| :: Encode(engine, b)[k] == '='
  {
    if |b| >= 3 {
      EncodePadding(engine, b[3..]);
      assert DigitCount(|b|) == DigitCount(|b| - 3) + 4;
      assert (|b| + 2) / 3 == (|b| - 1) / 3 + 1;
    }
  }
}
