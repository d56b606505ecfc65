/** Python list slicing `s[:k]` and the subsequence relation used to state order preservation. */
module ListOps {

  /** Python's `s[:k]`: a non-negative `k` keeps the first `k` elements (all of them if
      there are fewer); a negative `k` drops the last `-k` elements. */
  function Take<T>(s: seq<T>, k: int): (r: seq<T>)
    ensures |r| <= |s| && r == s[..|r|]
    ensures k >= 0 ==> |r| == if k <= |s| then k else |s|
    ensures k < 0 ==> |r| == if |s| + k >= 0 then |s| + k else 0
  {
    if k >= 0 then (if k <= |s| then s[..k] else s)
    else if |s| + k >= 0 then s[..|s| + k]
    else []
  }

  /** `a` is `b` with some elements left out, the rest in their original order. */
  ghost predicate SubseqOf<T>(a: seq<T>, b: seq<T>)
    decreases |b|
  {
    if a == [] then true
    else if b == [] then false
    else (a[0] == b[0] && SubseqOf(a[1..], b[1..])) || SubseqOf(a, b[1..])
  }

  /** Any list is a subsequence of itself. */
  lemma {:induction false} SubseqOfRefl<T>(a: seq<T>)
    ensures SubseqOf(a, a)
  {
    if a != [] { SubseqOfRefl(a[1..]); }
  }

  /** A prefix of a subsequence of `b` is again a subsequence of `b`. */
  lemma {:induction false} SubseqOfPrefix<T>(a: seq<T>, b: seq<T>, n: nat)
    requires SubseqOf(a, b) && n <= |a|
    ensures SubseqOf(a[..n], b)
    decreases |b|
  {
    if n == 0 {
    } else if a[0] == b[0] && SubseqOf(a[1..], b[1..]) {
      SubseqOfPrefix(a[1..], b[1..], n - 1);
      assert a[..n][1..] == a[1..][..n - 1];
    } else {
      SubseqOfPrefix(a, b[1..], n);
    }
  }

  /** Appending one element to both sides keeps the relation. */
  lemma {:induction false} SubseqOfSnoc<T>(a: seq<T>, b: seq<T>, x: T, keep: bool)
    requires SubseqOf(a, b)
    ensures SubseqOf(if keep then a + [x] else a, b + [x])
    decreases |b|
  {
    if a == [] {
      if keep {
        assert a + [x] == [x];
        SubseqOfEmpty(b, x);
      }
    } else if b == [] {
    } else if a[0] == b[0] && SubseqOf(a[1..], b[1..]) {
      SubseqOfSnoc(a[1..], b[1..], x, keep);
      assert (b + [x])[1..] == b[1..] + [x];
      if keep { assert (a + [x])[1..] == a[1..] + [x]; }
    } else {
      SubseqOfSnoc(a, b[1..], x, keep);
      assert (b + [x])[1..] == b[1..] + [x];
    }
  }

  lemma {:induction false} SubseqOfEmpty<T>(b: seq<T>, x: T)
    ensures SubseqOf([x], b + [x])
    decreases |b|
  {
    if b != [] {
      SubseqOfEmpty(b[1..], x);
      assert (b + [x])[1..] == b[1..] + [x];
    }
  }
}
