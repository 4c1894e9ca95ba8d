/** Byte-string helpers mirroring the parts of Go's strings, strconv and fmt
    packages that the pipeline relies on. A Go string is a sequence of bytes;
    here it is a `string` whose every character stands for one byte (text
    outside ASCII appears as its UTF-8 bytes), so `|s|` is Go's `len(s)` and
    slicing is byte slicing. Case folding is ASCII only. */
module Text {

  // ---------------------------------------------------------------------------
  // Case folding

  function LowerChar(c: char): char
  {
    if 'A' <= c <= 'Z' then (c as int + 32) as char else c
  }

  /** ASCII lower-casing, the model of strings.ToLower. */
  function Lower(s: string): (r: string)
    ensures |r| == |s|
    ensures forall i | 0 <= i < |s| :: r[i] == LowerChar(s[i])
  {
    seq(|s|, i requires 0 <= i < |s| => LowerChar(s[i]))
  }

  lemma LowerIdempotent(s: string)
    ensures Lower(Lower(s)) == Lower(s)
  {
  }

  // ---------------------------------------------------------------------------
  // Substrings

  /** t occurs in s starting at byte i. */
  predicate OccursAt(s: string, t: string, i: int)
  {
    0 <= i && i + |t| <= |s| && s[i..i + |t|] == t
  }

  /** t[j..] matches s from byte i + j on, and t fits into s at i. */
  predicate MatchAt(s: string, t: string, i: nat, j: nat)
    decreases |t| - j
  {
    if j >= |t| then i + |t| <= |s|
    else i + j < |s| && s[i + j] == t[j] && MatchAt(s, t, i, j + 1)
  }

  predicate ContainsFrom(s: string, t: string, i: nat)
    decreases |s| - i
  {
    MatchAt(s, t, i, 0) || (i < |s| && ContainsFrom(s, t, i + 1))
  }

  /** strings.Contains: t is a substring of s (the empty string is a substring of every string). */
  predicate Contains(s: string, t: string)
  {
    ContainsFrom(s, t, 0)
  }

  lemma {:induction false} MatchAtIff(s: string, t: string, i: nat, j: nat)
    requires j <= |t|
    ensures MatchAt(s, t, i, j) <==> i + |t| <= |s| && s[i + j..i + |t|] == t[j..]
    decreases |t| - j
  {
    if j < |t| {
      MatchAtIff(s, t, i, j + 1);
      if i + |t| <= |s| {
        assert s[i + j..i + |t|] == [s[i + j]] + s[i + j + 1..i + |t|];
        assert t[j..] == [t[j]] + t[j + 1..];
      }
    }
  }

  lemma {:induction false} ContainsFromIff(s: string, t: string, i: nat)
    requires i <= |s|
    ensures ContainsFrom(s, t, i) <==> exists k :: i <= k && OccursAt(s, t, k)
    decreases |s| - i
  {
    MatchAtIff(s, t, i, 0);
    assert t[0..] == t;
    assert MatchAt(s, t, i, 0) <==> OccursAt(s, t, i);
    if i < |s| {
      ContainsFromIff(s, t, i + 1);
      forall k | i <= k && OccursAt(s, t, k)
        ensures OccursAt(s, t, i) || exists k' :: i + 1 <= k' && OccursAt(s, t, k')
      {
        if k != i {
          assert i + 1 <= k && OccursAt(s, t, k);
        }
      }
    } else {
      forall k | i <= k && OccursAt(s, t, k) ensures OccursAt(s, t, i) {
        assert k == i;
      }
    }
  }

  /** The substring test agrees with its declarative reading. */
  lemma ContainsIff(s: string, t: string)
    ensures Contains(s, t) <==> exists k :: OccursAt(s, t, k)
  {
    ContainsFromIff(s, t, 0);
  }

  lemma ContainsEmpty(s: string)
    ensures Contains(s, "")
  {
    assert OccursAt(s, "", 0);
    ContainsIff(s, "");
  }

  lemma ContainsWitness(s: string, t: string, k: int)
    requires OccursAt(s, t, k)
    ensures Contains(s, t)
  {
    ContainsIff(s, t);
  }

  /** If some byte of t never occurs in s, s does not contain t. */
  lemma {:induction false} NotContainsFromCharAbsent(s: string, t: string, j: nat, i: nat)
    requires j < |t|
    requires forall k | 0 <= k < |s| :: s[k] != t[j]
    ensures !ContainsFrom(s, t, i)
    decreases |s| - i
  {
    MatchAtIff(s, t, i, 0);
    if i + |t| <= |s| {
      assert s[i..i + |t|][j] == s[i + j];
    }
    if i < |s| {
      NotContainsFromCharAbsent(s, t, j, i + 1);
    }
  }

  lemma NotContainsCharAbsent(s: string, t: string, j: nat)
    requires j < |t|
    requires forall k | 0 <= k < |s| :: s[k] != t[j]
    ensures !Contains(s, t)
  {
    NotContainsFromCharAbsent(s, t, j, 0);
  }

  /** If the two adjacent bytes t[j], t[j+1] never occur side by side in s, s does not contain t. */
  lemma {:induction false} NotContainsFromPairAbsent(s: string, t: string, j: nat, i: nat)
    requires j + 1 < |t|
    requires forall k | 0 <= k < |s| - 1 :: !(s[k] == t[j] && s[k + 1] == t[j + 1])
    ensures !ContainsFrom(s, t, i)
    decreases |s| - i
  {
    MatchAtIff(s, t, i, 0);
    if i + |t| <= |s| {
      assert s[i..i + |t|][j] == s[i + j];
      assert s[i..i + |t|][j + 1] == s[i + j + 1];
    }
    if i < |s| {
      NotContainsFromPairAbsent(s, t, j, i + 1);
    }
  }

  lemma NotContainsPairAbsent(s: string, t: string, j: nat)
    requires j + 1 < |t|
    requires forall k | 0 <= k < |s| - 1 :: !(s[k] == t[j] && s[k + 1] == t[j + 1])
    ensures !Contains(s, t)
  {
    NotContainsFromPairAbsent(s, t, j, 0);
  }

  /** strings.HasPrefix. */
  predicate HasPrefix(s: string, p: string)
  {
    |p| <= |s| && s[..|p|] == p
  }

  /** strings.TrimPrefix: s without p in front when it starts with p, else s. */
  function TrimPrefix(s: string, p: string): (r: string)
    ensures HasPrefix(s, p) ==> p + r == s
    ensures !HasPrefix(s, p) ==> r == s
  {
    if HasPrefix(s, p) then
      assert s == s[..|p|] + s[|p|..];
      s[|p|..]
    else s
  }

  // ---------------------------------------------------------------------------
  // Trimming and whitespace
  //
  // strings.TrimSpace and strings.Fields split on unicode.IsSpace: the ASCII
  // bytes \t \n \v \f \r and space, and the code points U+0085, U+00A0, U+1680,
  // U+2000 to U+200A, U+2028, U+2029, U+202F, U+205F and U+3000, whose UTF-8
  // encodings SpaceWidth matches byte by byte. Each of those encodings begins
  // with a byte that is not a continuation byte, and Go's decoder begins a rune
  // at every such byte, so the byte matches are exactly the white-space runes
  // Go decodes (Utf8.SpaceWidthDecodes states the agreement).

  /** ASCII white space, the bytes unicode.IsSpace accepts below 0x80. */
  predicate IsAsciiSpace(c: char)
  {
    c == ' ' || c == '\t' || c == '\n' || c == '\U{0B}' || c == '\U{0C}' || c == '\r'
  }

  /** A UTF-8 continuation byte, 0x80 to 0xBF. */
  predicate IsContinuation(c: char)
  {
    '\U{80}' <= c <= '\U{BF}'
  }

  /** U+0085 (C2 85) and U+00A0 NO-BREAK SPACE (C2 A0). */
  predicate IsSpace2(a: char, b: char)
  {
    a == '\U{C2}' && (b == '\U{85}' || b == '\U{A0}')
  }

  /** U+1680 (E1 9A 80); U+2000 to U+200A, U+2028, U+2029 and U+202F (E2 80 xx);
      U+205F (E2 81 9F); U+3000 IDEOGRAPHIC SPACE (E3 80 80). */
  predicate IsSpace3(a: char, b: char, c: char)
  {
    (a == '\U{E1}' && b == '\U{9A}' && c == '\U{80}') ||
    (a == '\U{E2}' && b == '\U{80}' && ('\U{80}' <= c <= '\U{8A}' || c == '\U{A8}' || c == '\U{A9}' || c == '\U{AF}')) ||
    (a == '\U{E2}' && b == '\U{81}' && c == '\U{9F}') ||
    (a == '\U{E3}' && b == '\U{80}' && c == '\U{80}')
  }

  /** The length in bytes of the white-space character s starts with, 0 when s
      does not start with one. */
  function SpaceWidth(s: string): (n: nat)
    ensures n <= 3 && n <= |s|
    ensures n > 0 ==> !IsContinuation(s[0])
  {
    if s == [] then 0
    else if IsAsciiSpace(s[0]) then 1
    else if 2 <= |s| && IsSpace2(s[0], s[1]) then 2
    else if 3 <= |s| && IsSpace3(s[0], s[1], s[2]) then 3
    else 0
  }

  /** The length in bytes of the white-space character s ends with, 0 when s
      does not end with one. */
  function TrailingSpaceWidth(s: string): (n: nat)
    ensures n <= 3 && n <= |s|
    ensures n > 0 ==> SpaceWidth(s[|s| - n..]) == n
  {
    if s == [] then 0
    else if IsAsciiSpace(s[|s| - 1]) then 1
    else if 2 <= |s| && IsSpace2(s[|s| - 2], s[|s| - 1]) then 2
    else if 3 <= |s| && IsSpace3(s[|s| - 3], s[|s| - 2], s[|s| - 1]) then 3
    else 0
  }

  /** A white-space character at the front survives anything appended. */
  lemma SpaceWidthExtend(a: string, b: string)
    requires SpaceWidth(a) > 0
    ensures SpaceWidth(a + b) == SpaceWidth(a)
  {
    assert (a + b)[0] == a[0];
    if |a| >= 2 { assert (a + b)[1] == a[1]; }
    if |a| >= 3 { assert (a + b)[2] == a[2]; }
  }

  /** Appending text that starts a new character (not a continuation byte)
      cannot complete a white-space character at the front. */
  lemma SpaceWidthConcat(a: string, b: string)
    requires a != []
    requires b == [] || !IsContinuation(b[0])
    ensures SpaceWidth(a + b) == SpaceWidth(a)
  {
    var s := a + b;
    assert s[0] == a[0];
    if |a| >= 2 { assert s[1] == a[1]; }
    if |a| >= 3 { assert s[2] == a[2]; }
    if |a| < 3 && b != [] {
      assert s[|a|] == b[0];
    }
  }

  /** Removes the longest suffix of s made of bytes satisfying drop. */
  function TrimRightWhere(s: string, drop: char -> bool): (r: string)
    ensures |r| <= |s| && r == s[..|r|]
    ensures r == [] || !drop(r[|r| - 1])
    ensures forall k | |r| <= k < |s| :: drop(s[k])
    decreases |s|
  {
    if s == [] || !drop(s[|s| - 1]) then s else TrimRightWhere(s[..|s| - 1], drop)
  }

  /** strings.TrimRight(s, cutset). */
  function TrimRight(s: string, cutset: string): string
  {
    TrimRightWhere(s, c => c in cutset)
  }

  /** No white-space character starts anywhere in w. */
  predicate SpaceFree(w: string)
    decreases |w|
  {
    w == [] || (SpaceWidth(w) == 0 && SpaceFree(w[1..]))
  }

  /** A field: a non-empty run of bytes with no white space in it. */
  predicate Word(w: string)
  {
    w != [] && SpaceFree(w)
  }

  lemma {:induction false} SpaceFreeAt(w: string, k: nat)
    requires SpaceFree(w) && k < |w|
    ensures SpaceWidth(w[k..]) == 0
    decreases k
  {
    if k > 0 {
      assert w[1..][k - 1..] == w[k..];
      SpaceFreeAt(w[1..], k - 1);
    }
  }

  /** Number of bytes before the first white-space character of s. */
  function WordLength(s: string): (n: nat)
    ensures n <= |s|
    decreases |s|
  {
    if s == [] || SpaceWidth(s) > 0 then 0 else 1 + WordLength(s[1..])
  }

  /** The first word ends at white space or at the end of s. */
  lemma {:induction false} WordEnd(s: string)
    ensures WordLength(s) == |s| || SpaceWidth(s[WordLength(s)..]) > 0
    decreases |s|
  {
    if s != [] && SpaceWidth(s) == 0 {
      WordEnd(s[1..]);
      assert s[1..][WordLength(s[1..])..] == s[1 + WordLength(s[1..])..];
    } else if s != [] {
      assert s[0..] == s;
    }
  }

  /** A space-free run followed by white space (or nothing) is one word long. */
  lemma {:induction false} WordLengthConcat(u: string, b: string)
    requires SpaceFree(u)
    requires b == [] || SpaceWidth(b) > 0
    ensures WordLength(u + b) == |u|
    decreases |u|
  {
    if u == [] {
      assert u + b == b;
    } else {
      SpaceWidthConcat(u, b);
      assert (u + b)[1..] == u[1..] + b;
      WordLengthConcat(u[1..], b);
    }
  }

  /** Appending a white-space character leaves the first word as it is. */
  lemma {:induction false} WordLengthAppendSpace(u: string, sp: string)
    requires SpaceWidth(sp) == |sp| > 0
    ensures WordLength(u + sp) == WordLength(u)
    decreases |u|
  {
    if u == [] {
      assert u + sp == sp;
    } else if SpaceWidth(u) > 0 {
      SpaceWidthExtend(u, sp);
    } else {
      SpaceWidthConcat(u, sp);
      assert (u + sp)[1..] == u[1..] + sp;
      WordLengthAppendSpace(u[1..], sp);
    }
  }

  /** The bytes before the first white space form a word. */
  lemma {:induction false} WordPrefix(s: string)
    requires s != [] && SpaceWidth(s) == 0
    ensures WordLength(s) > 0 && Word(s[..WordLength(s)])
    decreases |s|
  {
    var n := WordLength(s);
    var t := s[1..];
    assert s == s[..n] + s[n..];
    WordEnd(s);
    SpaceWidthConcat(s[..n], s[n..]);
    assert s[..n][1..] == t[..n - 1];
    if n > 1 {
      assert WordLength(t) == n - 1 && SpaceWidth(t) == 0;
      WordPrefix(t);
    }
  }

  /** strings.Fields: the maximal runs of non-space bytes, in order. */
  function Fields(s: string): seq<string>
    decreases |s|
  {
    if s == [] then []
    else
      var w := SpaceWidth(s);
      if w > 0 then Fields(s[w..])
      else
        var n := WordLength(s);
        [s[..n]] + Fields(s[n..])
  }

  /** Every field is a non-empty run with no white space in it. */
  lemma {:induction false} FieldsAreWords(s: string)
    ensures forall k | 0 <= k < |Fields(s)| :: Word(Fields(s)[k])
    decreases |s|
  {
    if s != [] {
      var w := SpaceWidth(s);
      if w > 0 {
        FieldsAreWords(s[w..]);
      } else {
        WordPrefix(s);
        var n := WordLength(s);
        FieldsAreWords(s[n..]);
        var r := Fields(s);
        assert r == [s[..n]] + Fields(s[n..]);
        forall k | 0 <= k < |r| ensures Word(r[k]) {
          if k > 0 { assert r[k] == Fields(s[n..])[k - 1]; }
        }
      }
    }
  }

  /** A word on its own is its only field. */
  lemma FieldsOfWord(p: string)
    requires Word(p)
    ensures Fields(p) == [p]
  {
    WordLengthConcat(p, []);
    assert p + [] == p;
    assert p[..|p|] == p;
  }

  /** A word followed by a white-space character is the first field. */
  lemma FieldsCons(p: string, sp: string, rest: string)
    requires Word(p)
    requires SpaceWidth(sp) == |sp| > 0
    ensures Fields(p + sp + rest) == [p] + Fields(rest)
  {
    var t := p + sp + rest;
    var tail := sp + rest;
    assert t == p + tail;
    SpaceWidthExtend(sp, rest);
    WordLengthConcat(p, tail);
    SpaceWidthConcat(p, tail);
    assert t[..|p|] == p;
    assert t[|p|..] == tail;
    assert tail[|sp|..] == rest;
  }

  /** Appending a white-space character adds no field. */
  lemma {:induction false} FieldsAppendSpace(u: string, sp: string)
    requires SpaceWidth(sp) == |sp| > 0
    ensures Fields(u + sp) == Fields(u)
    decreases |u|
  {
    var t := u + sp;
    if u == [] {
      assert t == sp && sp[|sp|..] == [];
    } else if SpaceWidth(u) > 0 {
      var v := SpaceWidth(u);
      SpaceWidthExtend(u, sp);
      assert t[v..] == u[v..] + sp;
      FieldsAppendSpace(u[v..], sp);
    } else {
      var n := WordLength(u);
      SpaceWidthConcat(u, sp);
      WordLengthAppendSpace(u, sp);
      assert t[..n] == u[..n];
      assert t[n..] == u[n..] + sp;
      FieldsAppendSpace(u[n..], sp);
    }
  }

  /** A run of white-space characters, possibly empty. */
  predicate AllSpace(s: string)
    decreases |s|
  {
    s == [] || (SpaceWidth(s) > 0 && AllSpace(s[SpaceWidth(s)..]))
  }

  /** gaps[0] + words[0] + gaps[1] + ... + words[n - 1] + gaps[n]. */
  function Interleave(words: seq<string>, gaps: seq<string>): string
    requires |gaps| == |words| + 1
    decreases |words|
  {
    if words == [] then gaps[0] else gaps[0] + words[0] + Interleave(words[1..], gaps[1..])
  }

  /** Gaps that are white space, none empty between two words. */
  predicate SeparatingGaps(gaps: seq<string>)
  {
    (forall k | 0 <= k < |gaps| :: AllSpace(gaps[k])) &&
    (forall k | 0 < k < |gaps| - 1 :: gaps[k] != [])
  }

  /** The white space before, between and after the fields of s. */
  function Gaps(s: string): (g: seq<string>)
    ensures |g| == |Fields(s)| + 1
    decreases |s|
  {
    if s == [] then [""]
    else
      var w := SpaceWidth(s);
      if w > 0 then
        var g := Gaps(s[w..]);
        [s[..w] + g[0]] + g[1..]
      else
        WordPrefix(s);
        [""] + Gaps(s[WordLength(s)..])
  }

  lemma InterleaveGapPrefix(words: seq<string>, gaps: seq<string>, pre: string)
    requires |gaps| == |words| + 1
    ensures Interleave(words, [pre + gaps[0]] + gaps[1..]) == pre + Interleave(words, gaps)
  {
    var gaps' := [pre + gaps[0]] + gaps[1..];
    assert gaps'[1..] == gaps[1..];
    if words != [] {
      assert Interleave(words, gaps') == gaps'[0] + words[0] + Interleave(words[1..], gaps[1..]);
    }
  }

  lemma SpaceWidthPrefix(s: string)
    requires SpaceWidth(s) > 0
    ensures SpaceWidth(s[..SpaceWidth(s)]) == SpaceWidth(s)
  {
    var w := SpaceWidth(s);
    assert s[..w][0] == s[0];
    if w >= 2 { assert s[..w][1] == s[1]; }
    if w >= 3 { assert s[..w][2] == s[2]; }
  }

  /** One white-space character in front of a run of white space. */
  lemma AllSpacePrepend(sp: string, g: string)
    requires SpaceWidth(sp) == |sp| > 0 && AllSpace(g)
    ensures AllSpace(sp + g)
  {
    SpaceWidthExtend(sp, g);
    assert (sp + g)[|sp|..] == g;
  }

  /** The facts FieldsGaps states about one string. */
  predicate GapsSplit(s: string)
  {
    Interleave(Fields(s), Gaps(s)) == s && SeparatingGaps(Gaps(s)) &&
    (Fields(s) != [] && SpaceWidth(s) > 0 ==> Gaps(s)[0] != [])
  }

  /** Every string is its fields with white-space gaps around them, and the
      gaps between two fields are not empty: the fields are the maximal runs
      without white space. */
  lemma {:induction false} FieldsGaps(s: string)
    ensures Interleave(Fields(s), Gaps(s)) == s
    ensures SeparatingGaps(Gaps(s))
    decreases |s|
  {
    FieldsGapsSplit(s);
  }

  lemma {:induction false} FieldsGapsSplit(s: string)
    ensures GapsSplit(s)
    decreases |s|
  {
    if s != [] {
      var w := SpaceWidth(s);
      if w > 0 {
        FieldsGapsSplit(s[w..]);
        GapsSpaceStep(s);
      } else {
        WordPrefix(s);
        FieldsGapsSplit(s[WordLength(s)..]);
        GapsWordStep(s);
      }
    }
  }

  lemma GapsSpaceStep(s: string)
    requires SpaceWidth(s) > 0 && GapsSplit(s[SpaceWidth(s)..])
    ensures GapsSplit(s)
  {
    var w := SpaceWidth(s);
    var t := s[w..];
    var g := Gaps(t);
    InterleaveGapPrefix(Fields(t), g, s[..w]);
    assert s == s[..w] + t;
    SpaceWidthPrefix(s);
    AllSpacePrepend(s[..w], g[0]);
    var g' := Gaps(s);
    assert g' == [s[..w] + g[0]] + g[1..];
    forall k | 0 <= k < |g'| ensures AllSpace(g'[k]) {
      if k > 0 { assert g'[k] == g[k]; }
    }
    forall k | 0 < k < |g'| - 1 ensures g'[k] != [] {
      assert g'[k] == g[k];
    }
  }

  lemma GapsWordStep(s: string)
    requires s != [] && SpaceWidth(s) == 0
    requires GapsSplit(s[WordLength(s)..])
    ensures GapsSplit(s)
  {
    GapsWordInterleave(s);
    GapsWordSeparating(s);
  }

  lemma GapsWordInterleave(s: string)
    requires s != [] && SpaceWidth(s) == 0
    requires Interleave(Fields(s[WordLength(s)..]), Gaps(s[WordLength(s)..])) == s[WordLength(s)..]
    ensures Interleave(Fields(s), Gaps(s)) == s
  {
    var n := WordLength(s);
    var t := s[n..];
    calc {
      Interleave(Fields(s), Gaps(s));
      { WordUnfold(s); }
      Interleave([s[..n]] + Fields(t), [""] + Gaps(t));
      { InterleaveWord(s[..n], Fields(t), Gaps(t)); }
      s[..n] + Interleave(Fields(t), Gaps(t));
      s[..n] + t;
      { assert s == s[..n] + t; }
      s;
    }
  }

  /** Fields and Gaps of a string that starts with a word. */
  lemma WordUnfold(s: string)
    requires s != [] && SpaceWidth(s) == 0
    ensures Fields(s) == [s[..WordLength(s)]] + Fields(s[WordLength(s)..])
    ensures Gaps(s) == [""] + Gaps(s[WordLength(s)..])
  {
  }

  lemma InterleaveWord(w: string, words: seq<string>, gaps: seq<string>)
    requires |gaps| == |words| + 1
    ensures Interleave([w] + words, [""] + gaps) == w + Interleave(words, gaps)
  {
    assert ([w] + words)[1..] == words && ([""] + gaps)[1..] == gaps;
  }

  lemma GapsWordSeparating(s: string)
    requires s != [] && SpaceWidth(s) == 0
    requires SeparatingGaps(Gaps(s[WordLength(s)..]))
    requires Fields(s[WordLength(s)..]) != [] && SpaceWidth(s[WordLength(s)..]) > 0 ==> Gaps(s[WordLength(s)..])[0] != []
    ensures SeparatingGaps(Gaps(s))
  {
    var n := WordLength(s);
    var t := s[n..];
    var g := Gaps(t);
    var g' := [""] + g;
    assert Gaps(s) == g';
    assert |g| == |Fields(t)| + 1;
    assert t == [] ==> Fields(t) == [];
    forall k | 0 <= k < |g'| ensures AllSpace(g'[k]) {
      if k > 0 { assert g'[k] == g[k - 1]; }
    }
    forall k | 0 < k < |g'| - 1 ensures g'[k] != [] {
      assert g'[k] == g[k - 1];
    }
  }

  /** White space in front adds no field. */
  lemma {:induction false} FieldsSkipSpace(sp: string, rest: string)
    requires AllSpace(sp)
    ensures Fields(sp + rest) == Fields(rest)
    decreases |sp|
  {
    if sp != [] {
      var w := SpaceWidth(sp);
      SpaceWidthExtend(sp, rest);
      assert (sp + rest)[w..] == sp[w..] + rest;
      FieldsSkipSpace(sp[w..], rest);
    } else {
      assert sp + rest == rest;
    }
  }

  /** A word followed by white space, or by nothing, is the first field. */
  lemma FieldsWordThen(p: string, rest: string)
    requires Word(p)
    requires rest == [] || SpaceWidth(rest) > 0
    ensures Fields(p + rest) == [p] + Fields(rest)
  {
    WordLengthConcat(p, rest);
    SpaceWidthConcat(p, rest);
    assert (p + rest)[..|p|] == p;
    assert (p + rest)[|p|..] == rest;
  }

  lemma SeparatingGapsTail(gaps: seq<string>)
    requires gaps != [] && SeparatingGaps(gaps)
    ensures SeparatingGaps(gaps[1..])
  {
    forall k | 0 <= k < |gaps| - 1 ensures AllSpace(gaps[1..][k]) {
      assert gaps[1..][k] == gaps[k + 1];
    }
  }

  /** Words with white-space gaps around them, the gaps between two words not
      empty, split into exactly those words: together with FieldsGaps, the
      fields of s are the one such split of s. */
  lemma {:induction false} FieldsInterleave(words: seq<string>, gaps: seq<string>)
    requires |gaps| == |words| + 1
    requires forall k | 0 <= k < |words| :: Word(words[k])
    requires SeparatingGaps(gaps)
    ensures Fields(Interleave(words, gaps)) == words
    decreases |words|
  {
    if words == [] {
      FieldsSkipSpace(gaps[0], []);
      assert gaps[0] + [] == gaps[0];
    } else {
      SeparatingGapsTail(gaps);
      FieldsInterleave(words[1..], gaps[1..]);
      InterleaveStep(words, gaps);
    }
  }

  lemma InterleaveStep(words: seq<string>, gaps: seq<string>)
    requires |gaps| == |words| + 1 && words != []
    requires Word(words[0])
    requires SeparatingGaps(gaps)
    requires Fields(Interleave(words[1..], gaps[1..])) == words[1..]
    ensures Fields(Interleave(words, gaps)) == words
  {
    var rest := Interleave(words[1..], gaps[1..]);
    InterleaveUnfold(words, gaps);
    if |words| > 1 {
      InterleaveUnfold(words[1..], gaps[1..]);
      assert words[1..][0] == words[1] && gaps[1..][0] == gaps[1];
      SpaceWidthExtend(gaps[1], words[1] + Interleave(words[2..], gaps[2..]));
    }
    FieldsWordThen(words[0], rest);
    FieldsSkipSpace(gaps[0], words[0] + rest);
    assert words == [words[0]] + words[1..];
  }

  lemma InterleaveUnfold(words: seq<string>, gaps: seq<string>)
    requires |gaps| == |words| + 1
    ensures words == [] ==> Interleave(words, gaps) == gaps[0]
    ensures words != [] ==> Interleave(words, gaps) == gaps[0] + (words[0] + Interleave(words[1..], gaps[1..]))
  {
  }

  /** strings.TrimLeftFunc(s, unicode.IsSpace). */
  function TrimLeftSpace(s: string): (r: string)
    ensures |r| <= |s| && r == s[|s| - |r|..]
    ensures SpaceWidth(r) == 0
    ensures Fields(r) == Fields(s)
    decreases |s|
  {
    var w := SpaceWidth(s);
    if w == 0 then s
    else
      assert forall k | w <= k <= |s| :: s[w..][k - w..] == s[k..];
      TrimLeftSpace(s[w..])
  }

  /** strings.TrimRightFunc(s, unicode.IsSpace). */
  function TrimRightSpace(s: string): (r: string)
    ensures |r| <= |s| && r == s[..|r|]
    ensures |r| < |s| ==> !IsContinuation(s[|r|])
    ensures TrailingSpaceWidth(r) == 0
    ensures Fields(r) == Fields(s)
    decreases |s|
  {
    var w := TrailingSpaceWidth(s);
    if w == 0 then s
    else
      var u := s[..|s| - w];
      assert s == u + s[|s| - w..];
      FieldsAppendSpace(u, s[|s| - w..]);
      TrimRightSpace(u)
  }

  /** strings.TrimSpace: s without the white space at either end. What is left
      is a slice of s that neither starts nor ends with white space and has the
      same fields as s. */
  function TrimSpace(s: string): (r: string)
    ensures exists i :: OccursAt(s, r, i)
    ensures SpaceWidth(r) == 0 && TrailingSpaceWidth(r) == 0
    ensures Fields(r) == Fields(s)
  {
    var t := TrimLeftSpace(s);
    TrimRightKeepsFront(t);
    TrimSlice(s, t, TrimRightSpace(t));
    TrimRightSpace(t)
  }

  lemma TrimRightKeepsFront(t: string)
    requires SpaceWidth(t) == 0
    ensures SpaceWidth(TrimRightSpace(t)) == 0
  {
    var r := TrimRightSpace(t);
    if r != [] {
      assert t == r + t[|r|..];
      SpaceWidthConcat(r, t[|r|..]);
    }
  }

  lemma TrimSlice(s: string, t: string, r: string)
    requires |t| <= |s| && t == s[|s| - |t|..]
    requires |r| <= |t| && r == t[..|r|]
    ensures OccursAt(s, r, |s| - |t|)
  {
  }

  /** strings.Join. */
  function Join(parts: seq<string>, sep: string): string
    decreases |parts|
  {
    if parts == [] then ""
    else if |parts| == 1 then parts[0]
    else parts[0] + sep + Join(parts[1..], sep)
  }

  /** Every white-space character of s is a single ' ' that is neither first nor
      last and is followed by a byte that starts no white space: no leading or
      trailing space, no runs, no tabs, newlines or no-break spaces. */
  predicate Collapsed(s: string)
  {
    forall k | 0 <= k < |s| && SpaceWidth(s[k..]) > 0 ::
      s[k] == ' ' && 0 < k < |s| - 1 && SpaceWidth(s[k + 1..]) == 0
  }

  lemma {:induction false} JoinWordsCollapsed(parts: seq<string>)
    requires forall k | 0 <= k < |parts| :: Word(parts[k])
    ensures Collapsed(Join(parts, " "))
    ensures parts != [] ==> Join(parts, " ") != [] && SpaceWidth(Join(parts, " ")) == 0
    decreases |parts|
  {
    if |parts| == 1 {
      WordCollapsed(parts[0]);
    } else if |parts| > 1 {
      JoinWordsCollapsed(parts[1..]);
      JoinCollapsedStep(parts[0], Join(parts[1..], " "));
    }
  }

  /** A word on its own is collapsed and starts with no white space. */
  lemma WordCollapsed(p: string)
    requires Word(p)
    ensures Collapsed(p) && SpaceWidth(p) == 0
  {
    forall k | 0 <= k < |p| ensures SpaceWidth(p[k..]) == 0 {
      SpaceFreeAt(p, k);
    }
    assert p[0..] == p;
  }

  /** A word, a space and a collapsed text that starts with a word are collapsed. */
  lemma JoinCollapsedStep(p: string, rest: string)
    requires Word(p) && rest != [] && Collapsed(rest) && SpaceWidth(rest) == 0
    ensures Collapsed(p + " " + rest) && SpaceWidth(p + " " + rest) == 0
  {
    var j := p + " " + rest;
    forall k | 0 <= k < |j| && SpaceWidth(j[k..]) > 0
      ensures j[k] == ' ' && 0 < k < |j| - 1 && SpaceWidth(j[k + 1..]) == 0
    {
      JoinCollapsedAt(p, rest, k);
    }
    SpaceFreeAt(p, 0);
    assert p[0..] == p;
    assert j == p + (" " + rest);
    SpaceWidthConcat(p, " " + rest);
  }

  lemma JoinCollapsedAt(p: string, rest: string, k: nat)
    requires Word(p) && rest != [] && Collapsed(rest) && SpaceWidth(rest) == 0
    requires k < |p + " " + rest| && SpaceWidth((p + " " + rest)[k..]) > 0
    ensures var j := p + " " + rest;
      j[k] == ' ' && 0 < k < |j| - 1 && SpaceWidth(j[k + 1..]) == 0
  {
    var j := p + " " + rest;
    if k < |p| {
      SpaceFreeAt(p, k);
      assert false;
    } else if k == |p| {
      assert j[k + 1..] == rest;
    } else {
      var k' := k - |p| - 1;
      assert j[k..] == rest[k'..];
      assert j[k + 1..] == rest[k' + 1..];
    }
  }

  /** Joining words with single spaces and splitting again gives the words back. */
  lemma {:induction false} FieldsJoin(parts: seq<string>)
    requires forall k | 0 <= k < |parts| :: Word(parts[k])
    ensures Fields(Join(parts, " ")) == parts
    decreases |parts|
  {
    if |parts| == 1 {
      FieldsOfWord(parts[0]);
    } else if |parts| > 1 {
      FieldsJoin(parts[1..]);
      FieldsCons(parts[0], " ", Join(parts[1..], " "));
    }
  }

  /** strings.Join(strings.Fields(s), " "): the words of s, in order, separated
      by single spaces; collapsing again changes nothing. */
  function CollapseSpaces(s: string): (r: string)
    ensures Collapsed(r)
    ensures Fields(r) == Fields(s)
  {
    FieldsAreWords(s);
    JoinWordsCollapsed(Fields(s));
    FieldsJoin(Fields(s));
    Join(Fields(s), " ")
  }

  /** Two words with one white-space character of any kind between them
      collapse to the words joined by a single ' '. */
  lemma CollapseTwoWords(a: string, sp: string, b: string)
    requires Word(a) && Word(b)
    requires SpaceWidth(sp) == |sp| > 0
    ensures CollapseSpaces(a + sp + b) == a + " " + b
  {
    FieldsCons(a, sp, b);
    FieldsOfWord(b);
    var f := Fields(a + sp + b);
    assert f == [a, b];
    assert f[1..] == [b];
    assert Join(f[1..], " ") == b;
    assert Join(f, " ") == a + " " + b;
  }

  /** U+00A0 NO-BREAK SPACE (C2 A0) separates words as a space does: "abcd",
      NO-BREAK SPACE, "efgh" collapses to nine bytes. */
  lemma NoBreakSpaceSeparates()
    ensures CollapseSpaces("abcd" + "\U{C2}\U{A0}" + "efgh") == "abcd" + " " + "efgh"
    ensures |CollapseSpaces("abcd" + "\U{C2}\U{A0}" + "efgh")| == 9
  {
    assert Word("abcd");
    assert Word("efgh");
    CollapseTwoWords("abcd", "\U{C2}\U{A0}", "efgh");
  }

  /** A string that ends with a white-space character ends with it whatever
      comes before it. */
  lemma TrailingSpaceWidthAppend(u: string, sp: string)
    requires SpaceWidth(sp) == |sp| > 0
    ensures TrailingSpaceWidth(u + sp) == |sp|
  {
    var s := u + sp;
    assert s[|s| - 1] == sp[|sp| - 1];
    if |sp| >= 2 { assert s[|s| - 2] == sp[|sp| - 2]; }
    if |sp| >= 3 { assert s[|s| - 3] == sp[|sp| - 3]; }
  }

  /** A word does not end with white space. */
  lemma WordTrailing(w: string)
    requires Word(w)
    ensures TrailingSpaceWidth(w) == 0
  {
    var m := TrailingSpaceWidth(w);
    if m > 0 {
      SpaceFreeAt(w, |w| - m);
      assert false;
    }
  }

  /** Trimming a word with one white-space character of any kind on each side
      gives the word. */
  lemma TrimSpaceAround(sp1: string, w: string, sp2: string)
    requires Word(w)
    requires SpaceWidth(sp1) == |sp1| > 0 && SpaceWidth(sp2) == |sp2| > 0
    ensures TrimSpace(sp1 + w + sp2) == w
  {
    var t := w + sp2;
    assert sp1 + w + sp2 == sp1 + t;
    SpaceWidthExtend(sp1, t);
    assert (sp1 + t)[|sp1|..] == t;
    SpaceFreeAt(w, 0);
    assert w[0..] == w;
    SpaceWidthConcat(w, sp2);
    assert TrimLeftSpace(sp1 + w + sp2) == t;
    TrailingSpaceWidthAppend(w, sp2);
    assert t[..|t| - |sp2|] == w;
    assert TrimRightSpace(t) == TrimRightSpace(w);
    WordTrailing(w);
    assert TrimRightSpace(w) == w;
  }

  /** A heading made of one NO-BREAK SPACE trims to "". */
  lemma NoBreakSpaceTrimmed()
    ensures TrimSpace("\U{C2}\U{A0}") == ""
  {
    var s := "\U{C2}\U{A0}";
    assert SpaceWidth(s) == 2;
    assert s[2..] == "";
    assert TrimLeftSpace(s) == TrimLeftSpace("") == "";
    assert TrimRightSpace("") == "";
  }

  /** IDEOGRAPHIC SPACE (U+3000) before and NARROW NO-BREAK SPACE (U+202F)
      after a word are trimmed. */
  lemma WideSpacesTrimmed()
    ensures TrimSpace("\U{E3}\U{80}\U{80}" + "x" + "\U{E2}\U{80}\U{AF}") == "x"
  {
    assert Word("x");
    TrimSpaceAround("\U{E3}\U{80}\U{80}", "x", "\U{E2}\U{80}\U{AF}");
  }

  // ---------------------------------------------------------------------------
  // Splitting and replacing

  /** strings.Split(s, sep) for a one-byte separator: never empty, "" gives [""]. */
  function Split(s: string, sep: char): (r: seq<string>)
    ensures |r| >= 1
    decreases |s|
  {
    if s == [] then [""]
    else
      var rest := Split(s[1..], sep);
      if s[0] == sep then [""] + rest else [[s[0]] + rest[0]] + rest[1..]
  }

  lemma {:induction false} SplitPartsFree(s: string, sep: char)
    ensures forall k | 0 <= k < |Split(s, sep)| :: sep !in Split(s, sep)[k]
    decreases |s|
  {
    if s != [] { SplitPartsFree(s[1..], sep); }
  }

  lemma JoinHead(x: string, y: string, tail: seq<string>, sep: string)
    ensures Join([x + y] + tail, sep) == x + Join([y] + tail, sep)
  {
    if tail != [] {
      assert ([x + y] + tail)[1..] == tail;
      assert ([y] + tail)[1..] == tail;
    }
  }

  /** Joining the parts with the separator gives back the original string. */
  lemma {:induction false} SplitJoin(s: string, sep: char)
    ensures Join(Split(s, sep), [sep]) == s
    decreases |s|
  {
    if s != [] {
      var rest := Split(s[1..], sep);
      SplitJoin(s[1..], sep);
      if s[0] == sep {
        assert ([""] + rest)[1..] == rest;
      } else {
        assert [rest[0]] + rest[1..] == rest;
        JoinHead([s[0]], rest[0], rest[1..], [sep]);
        assert Join([[s[0]] + rest[0]] + rest[1..], [sep]) == [s[0]] + Join(rest, [sep]);
        assert s == [s[0]] + s[1..];
      }
    }
  }

  lemma {:induction false} SplitNoSeparator(x: string, sep: char)
    requires sep !in x
    ensures Split(x, sep) == [x]
    decreases |x|
  {
    if x != [] {
      SplitNoSeparator(x[1..], sep);
      assert [x[0]] + x[1..] == x;
    }
  }

  lemma {:induction false} SplitFirst(x: string, sep: char, y: string)
    requires sep !in x
    ensures Split(x + [sep] + y, sep) == [x] + Split(y, sep)
    decreases |x|
  {
    var s := x + [sep] + y;
    if x == [] {
      assert s[1..] == y;
    } else {
      assert s[1..] == x[1..] + [sep] + y;
      SplitFirst(x[1..], sep, y);
      assert [x[0]] + x[1..] == x;
    }
  }

  /** strings.ReplaceAll(s, pat, rep) for a non-empty pattern: a left-to-right scan
      replacing non-overlapping occurrences. */
  function ReplaceAll(s: string, pat: string, rep: string): string
    requires pat != []
    decreases |s|
  {
    if |s| < |pat| then s
    else if s[..|pat|] == pat then rep + ReplaceAll(s[|pat|..], pat, rep)
    else [s[0]] + ReplaceAll(s[1..], pat, rep)
  }

  lemma {:induction false} ReplaceAllAbsent(s: string, pat: string, rep: string)
    requires pat != []
    requires !Contains(s, pat)
    ensures ReplaceAll(s, pat, rep) == s
    decreases |s|
  {
    ContainsIff(s, pat);
    if |s| >= |pat| {
      assert !OccursAt(s, pat, 0);
      ContainsIff(s[1..], pat);
      forall k | OccursAt(s[1..], pat, k) ensures OccursAt(s, pat, k + 1) {
        assert s[1..][k..k + |pat|] == s[k + 1..k + 1 + |pat|];
      }
      ReplaceAllAbsent(s[1..], pat, rep);
      assert [s[0]] + s[1..] == s;
    }
  }

  // ---------------------------------------------------------------------------
  // Decimal formatting (fmt's %d and %02d)

  predicate IsDigit(c: char) { '0' <= c <= '9' }

  function DigitChar(d: int): char
    requires 0 <= d < 10
  {
    ('0' as int + d) as char
  }

  /** The decimal digits of n, most significant first, without leading zeros. */
  function NatToString(n: nat): (r: string)
    ensures |r| >= 1 && forall k | 0 <= k < |r| :: IsDigit(r[k])
    decreases n
  {
    if n < 10 then [DigitChar(n)] else NatToString(n / 10) + [DigitChar(n % 10)]
  }

  /** %d. */
  function Itoa(n: int): string
  {
    if n < 0 then "-" + NatToString(-n) else NatToString(n)
  }

  /** %02d: zero-padded to a width of two. */
  function Pad2(n: int): string
  {
    if 0 <= n < 10 then "0" + Itoa(n) else Itoa(n)
  }

  /** The number a string of decimal digits denotes. */
  function DigitsValue(s: string): nat
    requires forall k | 0 <= k < |s| :: IsDigit(s[k])
    decreases |s|
  {
    if s == [] then 0
    else
      var c := s[|s| - 1];
      assert IsDigit(c);
      DigitsValue(s[..|s| - 1]) * 10 + (c as int - '0' as int)
  }

  /** Formatting a natural number and reading it back gives the number. */
  lemma {:induction false} NatToStringRoundTrip(n: nat)
    ensures DigitsValue(NatToString(n)) == n
    decreases n
  {
    if n >= 10 {
      NatToStringRoundTrip(n / 10);
      var s := NatToString(n);
      assert s[..|s| - 1] == NatToString(n / 10);
    }
  }

  /** A week number between 0 and 99 is printed as exactly two digits that read back as it. */
  lemma Pad2RoundTrip(n: int)
    requires 0 <= n < 100
    ensures |Pad2(n)| == 2
    ensures forall k | 0 <= k < 2 :: IsDigit(Pad2(n)[k])
    ensures DigitsValue(Pad2(n)) == n
  {
    if n < 10 {
      assert Pad2(n) == ['0', DigitChar(n)];
      assert Pad2(n)[..1] == "0";
      assert DigitsValue("0") == 0;
    } else {
      NatToStringRoundTrip(n);
      assert NatToString(n) == NatToString(n / 10) + [DigitChar(n % 10)];
    }
  }

  // ---------------------------------------------------------------------------
  // Truncation

  /** truncateText / truncate: s itself when it has at most max bytes, otherwise its
      first max bytes followed by "...". */
  function Truncate(s: string, max: int): (r: string)
    requires max >= 0
    ensures |s| <= max ==> r == s
    ensures |s| > max ==> |r| == max + 3 && r[..max] == s[..max] && r[max..] == "..."
    ensures |r| <= max + 3
  {
    if |s| <= max then s else s[..max] + "..."
  }

  // ---------------------------------------------------------------------------
  // Byte-wise ordering and sort.Strings

  /** Go's a < b on strings: byte-wise lexicographic order, a proper prefix first. */
  predicate StrLess(a: string, b: string)
    decreases |a|
  {
    b != [] && (a == [] || a[0] < b[0] || (a[0] == b[0] && StrLess(a[1..], b[1..])))
  }

  lemma {:induction false} StrLessIrreflexive(a: string)
    ensures !StrLess(a, a)
    decreases |a|
  {
    if a != [] { StrLessIrreflexive(a[1..]); }
  }

  lemma {:induction false} StrLessTransitive(a: string, b: string, c: string)
    requires StrLess(a, b) && StrLess(b, c)
    ensures StrLess(a, c)
    decreases |a|
  {
    if a != [] && a[0] == b[0] && b[0] == c[0] {
      StrLessTransitive(a[1..], b[1..], c[1..]);
    }
  }

  lemma {:induction false} StrLessTotal(a: string, b: string)
    ensures a == b || StrLess(a, b) || StrLess(b, a)
    decreases |a|
  {
    if a != [] && b != [] && a[0] == b[0] {
      StrLessTotal(a[1..], b[1..]);
      assert a == [a[0]] + a[1..] && b == [b[0]] + b[1..];
    }
  }

  predicate Sorted(s: seq<string>)
  {
    forall i, j | 0 <= i < j < |s| :: !StrLess(s[j], s[i])
  }

  predicate StrictlySorted(s: seq<string>)
  {
    forall i, j | 0 <= i < j < |s| :: StrLess(s[i], s[j])
  }

  /** x placed in front of the first element of s that is greater than it. */
  function Insert(s: seq<string>, x: string): (r: seq<string>)
    ensures multiset(r) == multiset(s) + multiset{x}
    decreases |s|
  {
    if s == [] || StrLess(x, s[0]) then [x] + s
    else
      assert s == [s[0]] + s[1..];
      [s[0]] + Insert(s[1..], x)
  }

  lemma {:induction false} InsertSorted(s: seq<string>, x: string)
    requires Sorted(s)
    ensures Sorted(Insert(s, x))
    decreases |s|
  {
    var r := Insert(s, x);
    if s == [] || StrLess(x, s[0]) {
      forall j | 0 <= j < |s| ensures !StrLess(s[j], x) {
        if StrLess(s[j], x) { StrLessTransitive(s[j], x, s[0]); }
        StrLessIrreflexive(s[0]);
      }
    } else {
      InsertSorted(s[1..], x);
      var t := Insert(s[1..], x);
      forall j | 0 <= j < |t| ensures !StrLess(t[j], s[0]) {
        assert t[j] in multiset(t);
      }
    }
  }

  lemma {:induction false} InsertStrictlySorted(s: seq<string>, x: string)
    requires StrictlySorted(s) && x !in s
    ensures StrictlySorted(Insert(s, x))
    decreases |s|
  {
    if s == [] || StrLess(x, s[0]) {
      forall j | 0 <= j < |s| ensures StrLess(x, s[j]) {
        if j > 0 { StrLessTransitive(x, s[0], s[j]); }
      }
    } else {
      StrLessTotal(x, s[0]);
      InsertStrictlySorted(s[1..], x);
      var t := Insert(s[1..], x);
      forall j | 0 <= j < |t| ensures StrLess(s[0], t[j]) {
        assert t[j] in multiset(t);
      }
    }
  }

  /** sort.Strings: the same strings in ascending order; distinct strings end up
      strictly ascending. */
  method SortStrings(xs: seq<string>) returns (r: seq<string>)
    ensures Sorted(r)
    ensures multiset(r) == multiset(xs)
    ensures (forall i, j | 0 <= i < j < |xs| :: xs[i] != xs[j]) ==> StrictlySorted(r)
  {
    r := [];
    for i := 0 to |xs|
      invariant Sorted(r)
      invariant multiset(r) == multiset(xs[..i])
      invariant (forall i, j | 0 <= i < j < |xs| :: xs[i] != xs[j]) ==> StrictlySorted(r)
    {
      InsertSorted(r, xs[i]);
      if forall a, b | 0 <= a < b < |xs| :: xs[a] != xs[b] {
        assert xs[i] !in multiset(xs[..i]);
        InsertStrictlySorted(r, xs[i]);
      }
      assert xs[..i + 1] == xs[..i] + [xs[i]];
      r := Insert(r, xs[i]);
    }
    assert xs[..|xs|] == xs;
  }

  lemma NoMembersEmpty(s: seq<string>)
    ensures (forall x :: x !in s) ==> s == []
  {
    if s != [] { assert s[0] in s; }
  }

  /** Two strictly ascending lists of the same strings are the same list: the
      sorted order of a set does not depend on the order it was listed in. */
  lemma {:induction false} StrictlySortedUnique(a: seq<string>, b: seq<string>)
    requires StrictlySorted(a) && StrictlySorted(b)
    requires forall x :: x in a <==> x in b
    ensures a == b
    decreases |a|
  {
    if a != [] && b != [] {
      assert b[0] in a && a[0] in b;
      var m :| 0 <= m < |a| && a[m] == b[0];
      var k :| 0 <= k < |b| && b[k] == a[0];
      StrLessIrreflexive(a[0]);
      StrLessIrreflexive(b[0]);
      if m > 0 && k > 0 {
        StrLessTransitive(a[0], b[0], a[0]);
      }
      assert a[0] == b[0];
      assert a == [a[0]] + a[1..] && b == [b[0]] + b[1..];
      forall x | x in a[1..] ensures x in b[1..] {
        var i :| 0 <= i < |a[1..]| && a[1..][i] == x;
        assert StrLess(a[0], x) && x in b;
        var j :| 0 <= j < |b| && b[j] == x;
        assert j != 0;
        assert b[1..][j - 1] == x;
      }
      forall x | x in b[1..] ensures x in a[1..] {
        var i :| 0 <= i < |b[1..]| && b[1..][i] == x;
        assert StrLess(b[0], x) && x in a;
        var j :| 0 <= j < |a| && a[j] == x;
        assert j != 0;
        assert a[1..][j - 1] == x;
      }
      StrictlySortedUnique(a[1..], b[1..]);
      assert a == [a[0]] + a[1..] && b == [b[0]] + b[1..];
    } else {
      NoMembersEmpty(a);
      NoMembersEmpty(b);
    }
  }
}
