/** Generic sequence operations that the pipeline's append loops compute. */
module Seqs {

  /** The elements of s satisfying p, in their original order. Defined from
      the back, the way an append loop builds it. */
  function Filter<T>(s: seq<T>, p: T -> bool): (r: seq<T>)
    ensures |r| <= |s|
    ensures forall x | x in r :: x in s && p(x)
    ensures forall x | x in s && p(x) :: x in r
    decreases |s|
  {
    if s == [] then [] else Filter(s[..|s| - 1], p) + (if p(s[|s| - 1]) then [s[|s| - 1]] else [])
  }

  lemma {:induction false} FilterAppend<T>(a: seq<T>, b: seq<T>, p: T -> bool)
    ensures Filter(a + b, p) == Filter(a, p) + Filter(b, p)
    decreases |b|
  {
    if b != [] {
      var n := |b| - 1;
      assert (a + b)[..|a + b| - 1] == a + b[..n];
      FilterAppend(a, b[..n], p);
    } else {
      assert a + b == a;
    }
  }

  lemma {:induction false} FilterIdempotent<T>(s: seq<T>, p: T -> bool)
    ensures Filter(Filter(s, p), p) == Filter(s, p)
    decreases |s|
  {
    if s != [] {
      var n := |s| - 1;
      FilterIdempotent(s[..n], p);
      FilterAppend(Filter(s[..n], p), if p(s[n]) then [s[n]] else [], p);
    }
  }

  /** Every element kept plus every element dropped accounts for the whole input. */
  lemma {:induction false} FilterPartition<T>(s: seq<T>, p: T -> bool, q: T -> bool)
    requires forall x :: q(x) == !p(x)
    ensures |Filter(s, p)| + |Filter(s, q)| == |s|
    decreases |s|
  {
    if s != [] { FilterPartition(s[..|s| - 1], p, q); }
  }

  /** One more element at the back is kept at the back, or dropped. */
  lemma FilterSnoc<T>(s: seq<T>, x: T, p: T -> bool)
    ensures Filter(s + [x], p) == Filter(s, p) + (if p(x) then [x] else [])
  {
    assert (s + [x])[..|s|] == s;
  }

  /** A predicate that holds everywhere keeps everything. */
  lemma {:induction false} FilterAll<T>(s: seq<T>, p: T -> bool)
    requires forall x | x in s :: p(x)
    ensures Filter(s, p) == s
    decreases |s|
  {
    if s != [] {
      var n := |s| - 1;
      forall x | x in s[..n] ensures p(x) { assert x in s; }
      FilterAll(s[..n], p);
      assert s[n] in s;
      AppendLast(s);
    }
  }

  /** A predicate that holds nowhere keeps nothing. */
  lemma {:induction false} FilterNone<T>(s: seq<T>, p: T -> bool)
    requires forall x | x in s :: !p(x)
    ensures Filter(s, p) == []
    decreases |s|
  {
    if s != [] {
      var n := |s| - 1;
      forall x | x in s[..n] ensures !p(x) { assert x in s; }
      FilterNone(s[..n], p);
      assert s[n] in s;
    }
  }

  /** A non-empty sequence is its front followed by its last element. */
  lemma AppendLast<T>(s: seq<T>)
    requires s != []
    ensures s[..|s| - 1] + [s[|s| - 1]] == s
  {
  }

  /** Concatenation is associative. */
  lemma AppendAssoc<T>(a: seq<T>, b: seq<T>, c: seq<T>)
    ensures (a + b) + c == a + (b + c)
  {
  }

  /** The filter of a prefix one element longer. */
  lemma FilterPrefix<T>(s: seq<T>, i: int, next: int, p: T -> bool)
    requires 0 <= i < |s| && next == i + 1
    ensures Filter(s[..next], p) == Filter(s[..i], p) + (if p(s[i]) then [s[i]] else [])
  {
    assert s[..next][..i] == s[..i];
  }

  /** The elements kept are a subsequence of the input. */
  lemma {:induction false} FilterSubsequence<T>(s: seq<T>, p: T -> bool)
    ensures IsSubsequence(Filter(s, p), s)
    decreases |s|
  {
    if s != [] {
      var n := |s| - 1;
      FilterSubsequence(s[..n], p);
      SubsequenceSnoc(Filter(s[..n], p), s[..n], s[n], p(s[n]));
      AppendLast(s);
    }
  }

  /** s with f applied to every element, in order. */
  function Map<T, U>(s: seq<T>, f: T -> U): (r: seq<U>)
    ensures |r| == |s|
    ensures forall i :: 0 <= i < |s| ==> r[i] == f(s[i])
  {
    seq(|s|, i requires 0 <= i < |s| => f(s[i]))
  }

  lemma MapSnoc<T, U>(s: seq<T>, x: T, f: T -> U)
    ensures Map(s + [x], f) == Map(s, f) + [f(x)]
  {
  }

  /** The first min(n, |s|) elements of s. */
  function Take<T>(s: seq<T>, n: nat): (r: seq<T>)
    ensures |r| <= n && |r| <= |s|
    ensures |s| >= n ==> |r| == n
    ensures r == s[..|r|]
  {
    if |s| <= n then s else s[..n]
  }

  /** Appending to a sequence that has not reached n elements extends its first n elements. */
  lemma TakeSnoc<T>(s: seq<T>, x: T, n: nat)
    ensures Take(s + [x], n) == if |s| < n then s + [x] else Take(s, n)
  {
    if |s| >= n {
      assert (s + [x])[..n] == s[..n];
    }
  }

  /** A prefix is a subsequence. */
  lemma {:induction false} PrefixSubsequence<T>(s: seq<T>, k: nat)
    requires k <= |s|
    ensures IsSubsequence(s[..k], s)
    decreases |s|
  {
    if k == 0 {
      assert s[..k] == [];
    } else if k == |s| {
      SubsequenceRefl(s);
      assert s[..k] == s;
    } else {
      var n := |s| - 1;
      PrefixSubsequence(s[..n], k);
      assert s[..n][..k] == s[..k];
      SubsequenceSnoc(s[..k], s[..n], s[n], false);
      AppendLast(s);
      assert s[..k] + [] == s[..k];
    }
  }

  lemma {:induction false} SubsequenceRefl<T>(s: seq<T>)
    ensures IsSubsequence(s, s)
    decreases |s|
  {
    if s != [] { SubsequenceRefl(s[1..]); }
  }

  lemma {:induction false} SubsequenceTrans<T>(a: seq<T>, b: seq<T>, c: seq<T>)
    requires IsSubsequence(a, b) && IsSubsequence(b, c)
    ensures IsSubsequence(a, c)
    decreases |c|
  {
    if a != [] {
      assert b != [] && c != [];
      if b[0] == c[0] && IsSubsequence(b[1..], c[1..]) {
        if a[0] == b[0] && IsSubsequence(a[1..], b[1..]) {
          SubsequenceTrans(a[1..], b[1..], c[1..]);
        } else {
          SubsequenceTrans(a, b[1..], c[1..]);
        }
      } else {
        SubsequenceTrans(a, b, c[1..]);
      }
    }
  }

  /** Appending one element to the larger sequence, and possibly to the smaller
      one too, keeps the subsequence relation. */
  lemma {:induction false} SubsequenceSnoc<T>(a: seq<T>, b: seq<T>, x: T, keep: bool)
    requires IsSubsequence(a, b)
    ensures IsSubsequence(a + (if keep then [x] else []), b + [x])
    decreases |b|
  {
    var a' := a + (if keep then [x] else []);
    if a == [] {
      if keep {
        if b == [] {
          assert a' == [x] && b + [x] == [x];
          assert IsSubsequence(a'[1..], []);
        } else {
          SubsequenceSnoc(a, b[1..], x, keep);
          assert (b + [x])[1..] == b[1..] + [x];
        }
      }
    } else {
      assert b != [];
      assert (b + [x])[1..] == b[1..] + [x];
      assert a'[1..] == a[1..] + (if keep then [x] else []);
      if a[0] == b[0] && IsSubsequence(a[1..], b[1..]) {
        SubsequenceSnoc(a[1..], b[1..], x, keep);
      } else {
        SubsequenceSnoc(a, b[1..], x, keep);
      }
    }
  }

  /** a can be obtained from b by deleting elements. */
  predicate IsSubsequence<T(==)>(a: seq<T>, b: seq<T>)
    decreases |b|
  {
    a == [] ||
    (b != [] && ((a[0] == b[0] && IsSubsequence(a[1..], b[1..])) || IsSubsequence(a, b[1..])))
  }

  /** Prefixing both sides with the same elements keeps the subsequence relation. */
  lemma {:induction false} SubsequenceExtend<T>(a: seq<T>, b: seq<T>, x: seq<T>)
    requires IsSubsequence(a, b)
    ensures IsSubsequence(x + a, x + b)
    decreases |x|
  {
    if x != [] {
      SubsequenceExtend(a, b, x[1..]);
      assert (x + a)[1..] == x[1..] + a;
      assert (x + b)[1..] == x[1..] + b;
      assert (x + a)[0] == (x + b)[0];
    } else {
      assert x + a == a && x + b == b;
    }
  }

  /** An extra element in front of the larger sequence keeps the subsequence relation. */
  lemma SubsequenceSkip<T>(a: seq<T>, b: seq<T>, y: T)
    requires IsSubsequence(a, b)
    ensures IsSubsequence(a, [y] + b)
  {
    assert ([y] + b)[1..] == b;
  }

  /** No element occurs twice. */
  predicate Distinct<T(==)>(s: seq<T>)
  {
    forall i, j | 0 <= i < j < |s| :: s[i] != s[j]
  }

  /** Mapping the kept elements gives a subsequence of mapping them all. */
  lemma {:induction false} MapFilterSubsequence<T, U>(s: seq<T>, p: T -> bool, f: T -> U)
    ensures IsSubsequence(Map(Filter(s, p), f), Map(s, f))
    decreases |s|
  {
    if s != [] {
      var n := |s| - 1;
      MapFilterSubsequence(s[..n], p, f);
      SubsequenceSnoc(Map(Filter(s[..n], p), f), Map(s[..n], f), f(s[n]), p(s[n]));
      AppendLast(s);
      MapSnoc(s[..n], s[n], f);
      if p(s[n]) {
        MapSnoc(Filter(s[..n], p), s[n], f);
      } else {
        assert Map(Filter(s[..n], p), f) + [] == Map(Filter(s, p), f);
      }
    }
  }
}
