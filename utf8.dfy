/** UTF-8 as section 4 of RFC 3629 defines it, with Go's decoding conventions
    (unicode/utf8), and the sanitiser of the backfill tool that drops the
    bytes of a string that are not part of a well-formed sequence. */
module Utf8 {
  import opened Seqs
  import Text

  type byte = b: int | 0 <= b < 256

  /** utf8.RuneError, U+FFFD REPLACEMENT CHARACTER. */
  const RuneError := 0xFFFD

  predicate IsTail(b: byte)
  {
    0x80 <= b <= 0xBF
  }

  /** Length of the well-formed UTF-8 sequence that s starts with, or 0 when s
      does not start with one (the UTF8-char rule of RFC 3629, section 4). */
  function SeqLen(s: seq<byte>): (n: nat)
    ensures n <= 4 && n <= |s|
  {
    if |s| == 0 then 0
    else
      var b0 := s[0];
      if b0 <= 0x7F then 1
      else if 0xC2 <= b0 <= 0xDF then
        (if |s| >= 2 && IsTail(s[1]) then 2 else 0)
      else if 0xE0 <= b0 <= 0xEF then
        var lo := if b0 == 0xE0 then 0xA0 else 0x80;
        var hi := if b0 == 0xED then 0x9F else 0xBF;
        (if |s| >= 3 && lo <= s[1] <= hi && IsTail(s[2]) then 3 else 0)
      else if 0xF0 <= b0 <= 0xF4 then
        var lo := if b0 == 0xF0 then 0x90 else 0x80;
        var hi := if b0 == 0xF4 then 0x8F else 0xBF;
        (if |s| >= 4 && lo <= s[1] <= hi && IsTail(s[2]) && IsTail(s[3]) then 4 else 0)
      else 0
  }

  /** Only the first SeqLen(s) bytes decide SeqLen. */
  lemma SeqLenPrefix(s: seq<byte>, t: seq<byte>)
    requires SeqLen(s) > 0
    requires SeqLen(s) <= |t| && t[..SeqLen(s)] == s[..SeqLen(s)]
    ensures SeqLen(t) == SeqLen(s)
  {
    var n := SeqLen(s);
    assert t[0] == s[..n][0];
    if n >= 2 { assert t[1] == s[..n][1]; }
    if n >= 3 { assert t[2] == s[..n][2]; }
    if n >= 4 { assert t[3] == s[..n][3]; }
  }

  /** The six payload bits of continuation byte k (when s has one there). */
  function Tail(s: seq<byte>, k: nat): int
  {
    if k < |s| then s[k] as int - 0x80 else 0
  }

  /** The code point a well-formed sequence of n bytes encodes. */
  function CodePoint(s: seq<byte>, n: nat): int
    requires 1 <= n <= 4 && n <= |s|
  {
    var b0, b1, b2, b3 := s[0] as int, Tail(s, 1), Tail(s, 2), Tail(s, 3);
    if n == 1 then b0
    else if n == 2 then (b0 - 0xC0) * 64 + b1
    else if n == 3 then (b0 - 0xE0) * 4096 + b1 * 64 + b2
    else (b0 - 0xF0) * 262144 + b1 * 4096 + b2 * 64 + b3
  }

  /** utf8.DecodeRune: the first code point and its width, or (RuneError, 1) when s
      starts with an ill-formed or truncated sequence, or (RuneError, 0) on "". */
  function DecodeRune(s: seq<byte>): (rw: (int, nat))
    ensures |s| > 0 ==> 1 <= rw.1 <= |s|
    ensures SeqLen(s) > 0 ==> rw.1 == SeqLen(s)
  {
    if |s| == 0 then (RuneError, 0)
    else if SeqLen(s) == 0 then (RuneError, 1)
    else (CodePoint(s, SeqLen(s)), SeqLen(s))
  }

  /** A Unicode scalar value: a code point that is not a surrogate. */
  predicate IsScalar(r: int)
  {
    0 <= r <= 0x10FFFF && !(0xD800 <= r <= 0xDFFF)
  }

  /** utf8.EncodeRune: the UTF-8 bytes of r; a value that is not a scalar value is
      written as RuneError. */
  function EncodeRune(r: int): (bs: seq<byte>)
    ensures 1 <= |bs| <= 4
  {
    if !IsScalar(r) then [0xEF, 0xBF, 0xBD]
    else if r < 0x80 then [r]
    else if r < 0x800 then [0xC0 + r / 64, 0x80 + r % 64]
    else if r < 0x10000 then [0xE0 + r / 4096, 0x80 + (r / 64) % 64, 0x80 + r % 64]
    else [0xF0 + r / 262144, 0x80 + (r / 4096) % 64, 0x80 + (r / 64) % 64, 0x80 + r % 64]
  }

  /** string(runes): the concatenated encodings. */
  function EncodeAll(rs: seq<int>): seq<byte>
  {
    if rs == [] then [] else EncodeAll(rs[..|rs| - 1]) + EncodeRune(rs[|rs| - 1])
  }

  lemma EncodeAllSnoc(rs: seq<int>, r: int)
    ensures EncodeAll(rs + [r]) == EncodeAll(rs) + EncodeRune(r)
  {
    assert (rs + [r])[..|rs|] == rs;
  }

  lemma Digits64(q: int, d: int)
    requires 0 <= d < 64
    ensures (q * 64 + d) / 64 == q && (q * 64 + d) % 64 == d
  {
  }

  lemma Encode2(b0: int, t1: int)
    requires 0xC2 <= b0 <= 0xDF && 0 <= t1 < 64
    ensures EncodeRune((b0 - 0xC0) * 64 + t1) == [b0, 0x80 + t1]
  {
    Digits64(b0 - 0xC0, t1);
  }

  lemma Encode3(b0: int, t1: int, t2: int)
    requires 0xE0 <= b0 <= 0xEF && 0 <= t1 < 64 && 0 <= t2 < 64
    requires b0 == 0xE0 ==> t1 >= 0x20
    requires b0 == 0xED ==> t1 < 0x20
    ensures EncodeRune((b0 - 0xE0) * 4096 + t1 * 64 + t2) == [b0, 0x80 + t1, 0x80 + t2]
  {
    var hi := (b0 - 0xE0) * 64 + t1;
    var r := hi * 64 + t2;
    assert r == (b0 - 0xE0) * 4096 + t1 * 64 + t2;
    Digits64(hi, t2);
    Digits64(b0 - 0xE0, t1);
    assert r / 4096 == hi / 64;
  }

  lemma Encode4(b0: int, t1: int, t2: int, t3: int)
    requires 0xF0 <= b0 <= 0xF4 && 0 <= t1 < 64 && 0 <= t2 < 64 && 0 <= t3 < 64
    requires b0 == 0xF0 ==> t1 >= 0x10
    requires b0 == 0xF4 ==> t1 < 0x10
    ensures EncodeRune((b0 - 0xF0) * 262144 + t1 * 4096 + t2 * 64 + t3) == [b0, 0x80 + t1, 0x80 + t2, 0x80 + t3]
  {
    var hi := (b0 - 0xF0) * 64 + t1;
    var mid := hi * 64 + t2;
    var r := mid * 64 + t3;
    assert r == (b0 - 0xF0) * 262144 + t1 * 4096 + t2 * 64 + t3;
    Digits64(mid, t3);
    Digits64(hi, t2);
    Digits64(b0 - 0xF0, t1);
    assert r / 4096 == mid / 64;
    assert r / 262144 == hi / 64;
  }

  /** Decoding a well-formed sequence and encoding the code point gives the bytes back. */
  lemma DecodeEncode(s: seq<byte>)
    requires SeqLen(s) > 0
    ensures EncodeRune(DecodeRune(s).0) == s[..SeqLen(s)]
  {
    var n := SeqLen(s);
    if n == 2 {
      Encode2(s[0], Tail(s, 1));
    } else if n == 3 {
      Encode3(s[0], Tail(s, 1), Tail(s, 2));
    } else if n == 4 {
      Encode4(s[0], Tail(s, 1), Tail(s, 2), Tail(s, 3));
    }
  }

  /** Encoding a scalar value gives a well-formed sequence that decodes to it. */
  lemma EncodeDecode(r: int)
    requires IsScalar(r)
    ensures SeqLen(EncodeRune(r)) == |EncodeRune(r)|
    ensures DecodeRune(EncodeRune(r)) == (r, |EncodeRune(r)|)
  {
    if 0x80 <= r < 0x800 {
      EncodeDecode2(r);
    } else if 0x800 <= r < 0x10000 {
      EncodeDecode3(r);
    } else if 0x10000 <= r {
      EncodeDecode4(r);
    }
  }

  lemma EncodeDecode2(r: int)
    requires 0x80 <= r < 0x800
    ensures SeqLen(EncodeRune(r)) == |EncodeRune(r)| == 2
    ensures DecodeRune(EncodeRune(r)) == (r, 2)
  {
    var a, b := r / 64, r % 64;
    var e := EncodeRune(r);
    assert e == [0xC0 + a, 0x80 + b];
    assert SeqLen(e) == 2;
    assert CodePoint(e, 2) == a * 64 + b == r;
  }

  lemma EncodeDecode3(r: int)
    requires 0x800 <= r < 0x10000 && IsScalar(r)
    ensures SeqLen(EncodeRune(r)) == |EncodeRune(r)| == 3
    ensures DecodeRune(EncodeRune(r)) == (r, 3)
  {
    var a, b, c := r / 4096, (r / 64) % 64, r % 64;
    assert r / 64 == a * 64 + b;
    assert r == (a * 64 + b) * 64 + c;
    var e := EncodeRune(r);
    assert e == [0xE0 + a, 0x80 + b, 0x80 + c];
    assert SeqLen(e) == 3;
    assert CodePoint(e, 3) == a * 4096 + b * 64 + c == r;
  }

  lemma EncodeDecode4(r: int)
    requires 0x10000 <= r && IsScalar(r)
    ensures SeqLen(EncodeRune(r)) == |EncodeRune(r)| == 4
    ensures DecodeRune(EncodeRune(r)) == (r, 4)
  {
    var a, b, c, d := r / 262144, (r / 4096) % 64, (r / 64) % 64, r % 64;
    assert r / 4096 == a * 64 + b;
    assert r / 64 == (a * 64 + b) * 64 + c;
    assert r == ((a * 64 + b) * 64 + c) * 64 + d;
    var e := EncodeRune(r);
    assert e == [0xF0 + a, 0x80 + b, 0x80 + c, 0x80 + d];
    assert SeqLen(e) == 4;
    assert CodePoint(e, 4) == a * 262144 + b * 4096 + c * 64 + d == r;
  }

  // ---------------------------------------------------------------------------
  // White space

  /** unicode.IsSpace: the ASCII white space, U+0085, U+00A0, and the
      White_Space code points above U+00FF. */
  predicate IsSpaceRune(r: int)
  {
    r == 0x09 || r == 0x0A || r == 0x0B || r == 0x0C || r == 0x0D || r == 0x20 ||
    r == 0x85 || r == 0xA0 || r == 0x1680 || 0x2000 <= r <= 0x200A ||
    r == 0x2028 || r == 0x2029 || r == 0x202F || r == 0x205F || r == 0x3000
  }

  /** The bytes as the characters Text works on, one character per byte. */
  function Chars(s: seq<byte>): (t: string)
    ensures |t| == |s|
    ensures forall i | 0 <= i < |s| :: t[i] == s[i] as char
  {
    seq(|s|, i requires 0 <= i < |s| => s[i] as char)
  }

  lemma SpaceWidthTwo(s: seq<byte>)
    requires SeqLen(s) == 2
    ensures Text.SpaceWidth(Chars(s)) > 0 <==> IsSpaceRune(CodePoint(s, 2))
    ensures Text.SpaceWidth(Chars(s)) > 0 ==> Text.SpaceWidth(Chars(s)) == 2
  {
  }

  lemma SpaceWidthThree(s: seq<byte>)
    requires SeqLen(s) == 3
    ensures Text.SpaceWidth(Chars(s)) > 0 <==> IsSpaceRune(CodePoint(s, 3))
    ensures Text.SpaceWidth(Chars(s)) > 0 ==> Text.SpaceWidth(Chars(s)) == 3
  {
  }

  /** Every byte after the first of a decoded rune is a continuation byte, so
      Go's decoder starts a new rune at every byte that is not one: at every
      place where Text.SpaceWidth finds white space. */
  lemma DecodedTails(s: seq<byte>)
    ensures forall k | 1 <= k < DecodeRune(s).1 :: IsTail(s[k])
  {
  }

  /** The byte sequences Text.SpaceWidth matches are exactly the runes
      unicode.IsSpace accepts, decoded the way Go decodes them, and a match
      is as wide as the rune. */
  lemma SpaceWidthDecodes(s: seq<byte>)
    ensures Text.SpaceWidth(Chars(s)) > 0 <==> s != [] && IsSpaceRune(DecodeRune(s).0)
    ensures Text.SpaceWidth(Chars(s)) > 0 ==> Text.SpaceWidth(Chars(s)) == DecodeRune(s).1
  {
    var n := SeqLen(s);
    if n == 2 {
      SpaceWidthTwo(s);
    } else if n == 3 {
      SpaceWidthThree(s);
    }
  }

  // ---------------------------------------------------------------------------
  // Validity and sanitising

  /** utf8.Valid: s is a sequence of well-formed UTF-8 sequences. */
  predicate Valid(s: seq<byte>)
    decreases |s|
  {
    s == [] || (SeqLen(s) > 0 && Valid(s[SeqLen(s)..]))
  }

  /** The intended result of sanitising: every well-formed sequence of s, in order,
      with each byte that does not start one dropped. */
  function Sanitized(s: seq<byte>): (r: seq<byte>)
    ensures |r| <= |s|
    decreases |s|
  {
    if s == [] then []
    else if SeqLen(s) == 0 then Sanitized(s[1..])
    else s[..SeqLen(s)] + Sanitized(s[SeqLen(s)..])
  }

  lemma ValidCons(s: seq<byte>, rest: seq<byte>)
    requires SeqLen(s) > 0 && Valid(rest)
    ensures Valid(s[..SeqLen(s)] + rest)
  {
    var n := SeqLen(s);
    var t := s[..n] + rest;
    assert t[..n] == s[..n];
    SeqLenPrefix(s, t);
    assert t[n..] == rest;
  }

  /** Sanitising keeps valid text unchanged. */
  lemma {:induction false} SanitizedValidUnchanged(s: seq<byte>)
    requires Valid(s)
    ensures Sanitized(s) == s
    decreases |s|
  {
    if s != [] {
      SanitizedValidUnchanged(s[SeqLen(s)..]);
      assert s[..SeqLen(s)] + s[SeqLen(s)..] == s;
    }
  }

  /** The output of sanitising is always valid UTF-8. */
  lemma {:induction false} SanitizedIsValid(s: seq<byte>)
    ensures Valid(Sanitized(s))
    decreases |s|
  {
    if s != [] {
      if SeqLen(s) == 0 {
        SanitizedIsValid(s[1..]);
      } else {
        SanitizedIsValid(s[SeqLen(s)..]);
        ValidCons(s, Sanitized(s[SeqLen(s)..]));
      }
    }
  }

  /** Sanitising is idempotent. */
  lemma SanitizedIdempotent(s: seq<byte>)
    ensures Sanitized(Sanitized(s)) == Sanitized(s)
  {
    SanitizedIsValid(s);
    SanitizedValidUnchanged(Sanitized(s));
  }

  /** Sanitising only drops bytes: the output is a subsequence of the input. */
  lemma {:induction false} SanitizedSubsequence(s: seq<byte>)
    ensures IsSubsequence(Sanitized(s), s)
    decreases |s|
  {
    if s != [] {
      if SeqLen(s) == 0 {
        SanitizedSubsequence(s[1..]);
        SubsequenceSkip(Sanitized(s[1..]), s[1..], s[0]);
        assert [s[0]] + s[1..] == s;
      } else {
        var n := SeqLen(s);
        SanitizedSubsequence(s[n..]);
        SubsequenceExtend(Sanitized(s[n..]), s[n..], s[..n]);
        assert s[..n] + s[n..] == s;
      }
    }
  }

  /** A stray byte between two letters is dropped. */
  lemma SanitizedExample()
    ensures Sanitized([0x61, 0xFF, 0x62]) == [0x61, 0x62]
    ensures Sanitized([0xE2, 0x82]) == []
    ensures Sanitized([0xEF, 0xBF, 0xBD]) == [0xEF, 0xBF, 0xBD]
  {
    var s: seq<byte> := [0x61, 0xFF, 0x62];
    assert s[1..] == [0xFF, 0x62] && s[1..][1..] == [0x62];
    var t: seq<byte> := [0xE2, 0x82];
    assert t[1..] == [0x82];
    var u: seq<byte> := [0xEF, 0xBF, 0xBD];
    assert u[..3] == u && u[3..] == [];
  }

  /** One step of the rune loop on the rest t of the input: an ill-formed byte,
      decoded as a one-byte RuneError, is dropped. */
  lemma DropStep(t: seq<byte>)
    requires t != [] && DecodeRune(t) == (RuneError, 1)
    ensures Sanitized(t) == Sanitized(t[1..])
  {
  }

  /** The other step: a rune that is not a one-byte RuneError is a well-formed
      sequence, and keeping it extends the output by exactly its bytes. */
  lemma KeepStep(t: seq<byte>, v: seq<int>)
    requires t != [] && DecodeRune(t) != (RuneError, 1)
    ensures DecodeRune(t).1 <= |t|
    ensures EncodeAll(v + [DecodeRune(t).0]) + Sanitized(t[DecodeRune(t).1..])
      == EncodeAll(v) + Sanitized(t)
  {
    var n := SeqLen(t);
    assert n > 0 && DecodeRune(t).1 == n;
    assert Sanitized(t) == t[..n] + Sanitized(t[n..]);
    DecodeEncode(t);
    AppendRune(v, DecodeRune(t).0, t[..n], Sanitized(t[n..]));
  }

  /** The loop invariant of SanitizeUtf8: the runes v kept from the first i bytes
      of s, followed by the sanitised rest, are the sanitised whole. */
  ghost predicate Progress(s: seq<byte>, v: seq<int>, i: nat)
    requires i <= |s|
  {
    EncodeAll(v) + Sanitized(s[i..]) == Sanitized(s)
  }

  /** KeepStep at byte i of s, where r and size are what DecodeRune finds there
      and next is the index after the rune. */
  lemma KeepAt(s: seq<byte>, i: nat, v: seq<int>, r: int, size: nat, next: nat)
    requires i < |s| && (r, size) == DecodeRune(s[i..]) != (RuneError, 1)
    requires next == i + size
    requires Progress(s, v, i)
    ensures next <= |s|
    ensures Progress(s, v + [r], next)
  {
    KeepStep(s[i..], v);
    calc {
      EncodeAll(v + [r]) + Sanitized(s[next..]);
      { assert s[i..][size..] == s[next..]; }
      EncodeAll(v + [r]) + Sanitized(s[i..][size..]);
      EncodeAll(v) + Sanitized(s[i..]);
      Sanitized(s);
    }
  }

  /** DropStep at byte i of s; next is i + 1. */
  lemma DropAt(s: seq<byte>, i: nat, v: seq<int>, next: nat)
    requires i < |s| && DecodeRune(s[i..]) == (RuneError, 1)
    requires next == i + 1
    requires Progress(s, v, i)
    ensures Progress(s, v, next)
  {
    DropStep(s[i..]);
    assert s[i..][1..] == s[next..];
  }

  lemma AppendRune(v: seq<int>, r: int, kept: seq<byte>, rest: seq<byte>)
    requires EncodeRune(r) == kept
    ensures EncodeAll(v + [r]) + rest == EncodeAll(v) + (kept + rest)
  {
    EncodeAllSnoc(v, r);
  }

  /** sanitizeUTF8 on the bytes of a string: valid text is returned as it is;
      otherwise the text is decoded rune by rune, every one-byte RuneError (an
      ill-formed byte) is skipped and the remaining runes are encoded again. */
  method SanitizeUtf8(s: seq<byte>) returns (out: seq<byte>)
    ensures out == Sanitized(s)
  {
    if Valid(s) {
      SanitizedValidUnchanged(s);
      return s;
    }
    var v: seq<int> := [];
    var i := 0;
    while i < |s|
      invariant 0 <= i <= |s|
      invariant Progress(s, v, i)
      decreases |s| - i
    {
      var rw := DecodeRune(s[i..]);
      var r, size := rw.0, rw.1;
      if r == RuneError && size == 1 {
        var next := i + 1;
        DropAt(s, i, v, next);
        i := next;
        continue;
      }
      var next := i + size;
      KeepAt(s, i, v, r, size, next);
      v := v + [r];
      i := next;
    }
    assert s[i..] == [];
    out := EncodeAll(v);
  }
}
