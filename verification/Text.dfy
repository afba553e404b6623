/** The string operations the crate relies on: first-occurrence search, splitting, stripping and trimming. */
module Text {
  import opened Errors

  predicate OccursAt(s: string, pattern: string, k: int) {
    0 <= k && k + |pattern| <= |s| && s[k..k + |pattern|] == pattern
  }

  function FindFrom(s: string, pattern: string, from: nat): (r: Option<nat>)
    ensures r.Some? ==> OccursAt(s, pattern, r.value) && from <= r.value
    ensures r.Some? ==> forall k | from <= k < r.value :: !OccursAt(s, pattern, k)
    ensures r.None? ==> forall k | from <= k :: !OccursAt(s, pattern, k)
    decreases |s| - from
  {
    if from + |pattern| > |s| then None
    else if OccursAt(s, pattern, from) then Some(from)
    else FindFrom(s, pattern, from + 1)
  }

  /** The index of the first occurrence of `pattern`. */
  function Find(s: string, pattern: string): (r: Option<nat>)
    ensures r.Some? ==> OccursAt(s, pattern, r.value)
    ensures r.Some? ==> forall k | 0 <= k < r.value :: !OccursAt(s, pattern, k)
    ensures r.None? ==> forall k :: !OccursAt(s, pattern, k)
  {
    FindFrom(s, pattern, 0)
  }

  /** Splits at the first occurrence of `pattern`, dropping it. */
  function SplitOnce(s: string, pattern: string): (r: Option<(string, string)>)
    ensures r.Some? ==> s == r.value.0 + (pattern + r.value.1)
  {
    var k :- Find(s, pattern);
    Some((s[..k], s[k + |pattern|..]))
  }

  function StripPrefix(s: string, prefix: string): (r: Option<string>)
    ensures r.Some? <==> prefix <= s
    ensures r.Some? ==> s == prefix + r.value
  {
    if prefix <= s then Some(s[|prefix|..]) else None
  }

  function StripSuffix(s: string, suffix: string): (r: Option<string>)
    ensures r.Some? ==> s == r.value + suffix
  {
    if |suffix| <= |s| && s[|s| - |suffix|..] == suffix then Some(s[..|s| - |suffix|]) else None
  }

  /** The pattern does not occur before the joint. */
  predicate FirstJoint(left: string, pattern: string, right: string) {
    forall k | 0 <= k < |left| :: !OccursAt(left + (pattern + right), pattern, k)
  }

  /** The pattern is found where it was joined when it does not occur earlier. */
  lemma FindAtJoin(left: string, pattern: string, right: string)
    requires FirstJoint(left, pattern, right)
    ensures Find(left + (pattern + right), pattern) == Some(|left|)
    ensures SplitOnce(left + (pattern + right), pattern) == Some((left, right))
  {
    var s := left + (pattern + right);
    assert s[|left|..|left| + |pattern|] == pattern;
    assert OccursAt(s, pattern, |left|);
    assert s[..|left|] == left && s[|left| + |pattern|..] == right;
  }

  /** When the first character of the pattern does not occur before it, the split is where it was joined. */
  lemma SplitOnceOfJoin(left: string, pattern: string, right: string)
    requires pattern != "" && pattern[0] !in left
    ensures SplitOnce(left + (pattern + right), pattern) == Some((left, right))
  {
    var s := left + (pattern + right);
    forall k | 0 <= k < |left| ensures !OccursAt(s, pattern, k) {
      assert s[k] == left[k] && left[k] != pattern[0];
    }
    FindAtJoin(left, pattern, right);
  }

  /** What Find finds is a joint. */
  lemma JoinOfFind(s: string, pattern: string)
    requires Find(s, pattern).Some?
    ensures var k := Find(s, pattern).value; s == s[..k] + (pattern + s[k + |pattern|..])
  {
    var k := Find(s, pattern).value;
    assert s[k..k + |pattern|] == pattern;
  }

  /** Splitting is exactly un-joining at a first joint. */
  lemma SplitOnceDecision(s: string, pattern: string, left: string, right: string)
    ensures SplitOnce(s, pattern) == Some((left, right)) <==>
            s == left + (pattern + right) && FirstJoint(left, pattern, right)
  {
    if s == left + (pattern + right) && FirstJoint(left, pattern, right) {
      FindAtJoin(left, pattern, right);
    }
  }

  lemma StripPrefixOfJoin(prefix: string, rest: string)
    ensures StripPrefix(prefix + rest, prefix) == Some(rest)
  {
    assert (prefix + rest)[|prefix|..] == rest;
  }

  lemma StripSuffixOfJoin(rest: string, suffix: string)
    ensures StripSuffix(rest + suffix, suffix) == Some(rest)
  {
    var s := rest + suffix;
    assert s[|s| - |suffix|..] == suffix && s[..|s| - |suffix|] == rest;
  }

  /** Two concatenations whose first parts have equal length agree part by part. */
  lemma ConcatCancel<T>(a: seq<T>, b: seq<T>, c: seq<T>, d: seq<T>)
    requires a + b == c + d && |a| == |c|
    ensures a == c && b == d
  {
    assert a == (a + b)[..|a|] && c == (c + d)[..|c|];
    assert b == (a + b)[|a|..] && d == (c + d)[|c|..];
  }

  // ---------------------------------------------------------------- whitespace

  /** The Unicode White_Space property. */
  predicate IsWhitespace(c: char) {
    || '\U{0009}' <= c <= '\U{000d}'
    || c == '\U{0020}' || c == '\U{0085}' || c == '\U{00a0}' || c == '\U{1680}'
    || '\U{2000}' <= c <= '\U{200a}'
    || c == '\U{2028}' || c == '\U{2029}' || c == '\U{202f}' || c == '\U{205f}' || c == '\U{3000}'
  }

  predicate Blank(s: string) {
    forall c | c in s :: IsWhitespace(c)
  }

  function TrimStart(s: string): (r: string) {
    if s != "" && IsWhitespace(s[0]) then TrimStart(s[1..]) else s
  }

  function TrimEnd(s: string): (r: string) {
    if s != "" && IsWhitespace(s[|s| - 1]) then TrimEnd(s[..|s| - 1]) else s
  }

  function Trim(s: string): (r: string) {
    TrimEnd(TrimStart(s))
  }

  /** Neither end of the text is whitespace. */
  predicate Trimmed(s: string) {
    s == "" || (!IsWhitespace(s[0]) && !IsWhitespace(s[|s| - 1]))
  }

  lemma {:induction false} TrimStartOfPadded(pad: string, s: string)
    requires Blank(pad)
    ensures TrimStart(pad + s) == TrimStart(s)
  {
    if pad == "" {
      assert pad + s == s;
    } else {
      assert (pad + s)[0] == pad[0] && (pad + s)[1..] == pad[1..] + s;
      TrimStartOfPadded(pad[1..], s);
    }
  }

  lemma {:induction false} TrimEndOfPadded(s: string, pad: string)
    requires Blank(pad)
    ensures TrimEnd(s + pad) == TrimEnd(s)
  {
    if pad == "" {
      assert s + pad == s;
    } else {
      var n := |pad| - 1;
      assert (s + pad)[|s + pad| - 1] == pad[n] && (s + pad)[..|s + pad| - 1] == s + pad[..n];
      TrimEndOfPadded(s, pad[..n]);
    }
  }

  /** Trimming removes exactly the surrounding whitespace: it is determined by what it leaves and what it drops. */
  lemma TrimIsTheTrimmedCore(before: string, core: string, after: string)
    requires Blank(before) && Blank(after) && Trimmed(core)
    ensures Trim(before + core + after) == core
  {
    assert before + core + after == before + (core + after);
    TrimStartOfPadded(before, core + after);
    if core == "" {
      assert core + after == after + "";
      TrimStartOfPadded(after, "");
    } else {
      assert (core + after)[0] == core[0];
      TrimEndOfPadded(core, after);
    }
  }

  lemma {:induction false} TrimStartDrops(s: string) returns (before: string)
    ensures s == before + TrimStart(s) && Blank(before)
    ensures TrimStart(s) == "" || !IsWhitespace(TrimStart(s)[0])
  {
    if s != "" && IsWhitespace(s[0]) {
      var rest := TrimStartDrops(s[1..]);
      before := [s[0]] + rest;
    } else {
      before := "";
    }
  }

  lemma {:induction false} TrimEndDrops(s: string) returns (after: string)
    ensures s == TrimEnd(s) + after && Blank(after)
    ensures TrimEnd(s) == "" || !IsWhitespace(TrimEnd(s)[|TrimEnd(s)| - 1])
  {
    if s != "" && IsWhitespace(s[|s| - 1]) {
      var rest := TrimEndDrops(s[..|s| - 1]);
      after := rest + [s[|s| - 1]];
    } else {
      after := "";
    }
  }

  /** Every text is its trimmed core between two runs of whitespace. */
  lemma TrimSplits(s: string) returns (before: string, after: string)
    ensures s == before + Trim(s) + after && Blank(before) && Blank(after) && Trimmed(Trim(s))
  {
    before := TrimStartDrops(s);
    after := TrimEndDrops(TrimStart(s));
  }

  /** Whitespace added on either side does not change the trimmed text. */
  lemma TrimIgnoresPadding(left: string, s: string, right: string)
    requires Blank(left) && Blank(right)
    ensures Trim(left + s + right) == Trim(s)
  {
    var before, after := TrimSplits(s);
    assert left + s + right == (left + before) + Trim(s) + (after + right);
    TrimIsTheTrimmedCore(left + before, Trim(s), after + right);
  }

  lemma TrimIsIdempotent(s: string)
    ensures Trim(Trim(s)) == Trim(s)
  {
    var _, _ := TrimSplits(s);
    assert "" + Trim(s) + "" == Trim(s);
    TrimIsTheTrimmedCore("", Trim(s), "");
  }

  /** The text with every whitespace character dropped. */
  function WithoutWhitespace(s: string): (r: string)
    ensures forall c :: c in r <==> c in s && !IsWhitespace(c)
  {
    if s == "" then ""
    else (if IsWhitespace(s[0]) then "" else [s[0]]) + WithoutWhitespace(s[1..])
  }

  lemma {:induction false} WithoutWhitespaceOfConcat(s: string, t: string)
    ensures WithoutWhitespace(s + t) == WithoutWhitespace(s) + WithoutWhitespace(t)
  {
    if s == "" {
      assert s + t == t;
    } else {
      assert (s + t)[0] == s[0] && (s + t)[1..] == s[1..] + t;
      WithoutWhitespaceOfConcat(s[1..], t);
    }
  }

  lemma WithoutWhitespaceOfBlank(s: string)
    requires Blank(s)
    ensures WithoutWhitespace(s) == ""
  {
    if WithoutWhitespace(s) != "" {
      assert WithoutWhitespace(s)[0] in WithoutWhitespace(s);
    }
  }

  /** Order and multiplicity of the other characters are kept: a text without whitespace is its own residue. */
  lemma {:induction false} WithoutWhitespaceOfDense(s: string)
    requires forall c | c in s :: !IsWhitespace(c)
    ensures WithoutWhitespace(s) == s
  {
    if s != "" {
      assert s[0] in s && s == [s[0]] + s[1..];
      WithoutWhitespaceOfDense(s[1..]);
    }
  }

  /** Whitespace inserted anywhere does not change what is left. */
  lemma WithoutWhitespaceIgnoresBlanks(left: string, blank: string, right: string)
    requires Blank(blank)
    ensures WithoutWhitespace(left + blank + right) == WithoutWhitespace(left + right)
  {
    WithoutWhitespaceOfConcat(left + blank, right);
    WithoutWhitespaceOfConcat(left, blank);
    WithoutWhitespaceOfBlank(blank);
    WithoutWhitespaceOfConcat(left, right);
  }

  // ---------------------------------------------------------------- the whitespace of trimming and filtering, by code point

  /** The 25 code points with the White_Space property. */
  predicate WhiteSpaceCodePoint(v: int) {
    v in {0x09, 0x0a, 0x0b, 0x0c, 0x0d, 0x20, 0x85, 0xa0, 0x1680,
          0x2000, 0x2001, 0x2002, 0x2003, 0x2004, 0x2005, 0x2006, 0x2007, 0x2008, 0x2009, 0x200a,
          0x2028, 0x2029, 0x202f, 0x205f, 0x3000}
  }

  /** Trimming drops each of these code points at either end, and the filter drops them everywhere. */
  lemma ListedCodePointsAreDropped(c: char, s: string, t: string)
    requires WhiteSpaceCodePoint(c as int)
    ensures Trim([c] + s) == Trim(s) && Trim(s + [c]) == Trim(s)
    ensures WithoutWhitespace(s + [c] + t) == WithoutWhitespace(s + t)
  {
    TrimIgnoresPadding([c], s, "");
    TrimIgnoresPadding("", s, [c]);
    assert [c] + s + "" == [c] + s && "" + s + [c] == s + [c];
    WithoutWhitespaceIgnoresBlanks(s, [c], t);
  }

  /** A text with any other characters at its ends is its own trimmed form, and the filter keeps every other character. */
  lemma OtherCodePointsAreKept(c: char, s: string, d: char, t: string)
    requires !WhiteSpaceCodePoint(c as int) && !WhiteSpaceCodePoint(d as int)
    ensures Trim([c] + s + [d]) == [c] + s + [d] && Trim([c]) == [c]
    ensures WithoutWhitespace(s + [c] + t) == WithoutWhitespace(s) + [c] + WithoutWhitespace(t)
  {
    TrimIsTheTrimmedCore("", [c] + s + [d], "");
    TrimIsTheTrimmedCore("", [c], "");
    assert "" + ([c] + s + [d]) + "" == [c] + s + [d] && "" + [c] + "" == [c];
    WithoutWhitespaceOfConcat(s + [c], t);
    WithoutWhitespaceOfConcat(s, [c]);
    WithoutWhitespaceOfDense([c]);
  }
}
