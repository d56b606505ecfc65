/**
 * The ordering step of the store's search: `similarities.sort(key=score, reverse=True)`
 * on a list of `(index, score)` pairs built in store order. Python's sort is stable, also
 * with `reverse=True`, so equal scores keep their store order. The sort itself is library
 * code; it is specified here by a reference insertion sort with the same stability, and
 * by the fact that exactly one ordering satisfies the resulting order.
 */
module Ranking {

  /** A candidate of the search: its position in the store and its score. */
  datatype Scored = Scored(index: nat, score: real)

  /** `a` goes before `b`: a higher score, or an equal score and an earlier store position. */
  predicate Before(a: Scored, b: Scored) {
    a.score > b.score || (a.score == b.score && a.index < b.index)
  }

  /** Every element goes before every later one. */
  ghost predicate Ranked(s: seq<Scored>) {
    forall i, j :: 0 <= i < j < |s| ==> Before(s[i], s[j])
  }

  /** Store positions strictly increase, as they do in the list the search builds. */
  ghost predicate InStoreOrder(s: seq<Scored>) {
    forall i, j :: 0 <= i < j < |s| ==> s[i].index < s[j].index
  }

  /** Scores never increase along `s`. */
  ghost predicate NonIncreasing(s: seq<Scored>) {
    forall i, j :: 0 <= i < j < |s| ==> s[i].score >= s[j].score
  }

  /** Places `x` after every element whose score is at least `x`'s. */
  function Insert(s: seq<Scored>, x: Scored): (r: seq<Scored>)
    ensures |r| == |s| + 1
  {
    if s == [] then [x]
    else if s[0].score >= x.score then [s[0]] + Insert(s[1..], x)
    else [x] + s
  }

  /** The stable sort by descending score, inserting the elements in list order. */
  function SortByScoreDesc(s: seq<Scored>): (r: seq<Scored>)
    ensures |r| == |s|
  {
    if s == [] then [] else Insert(SortByScoreDesc(s[..|s| - 1]), s[|s| - 1])
  }

  lemma {:induction false} InsertPermutes(s: seq<Scored>, x: Scored)
    ensures multiset(Insert(s, x)) == multiset(s) + multiset{x}
  {
    if s != [] && s[0].score >= x.score {
      InsertPermutes(s[1..], x);
      assert s == [s[0]] + s[1..];
    }
  }

  /** Inserting an element later in store order than all of `s` keeps `s` ranked. */
  lemma {:induction false} InsertRanked(s: seq<Scored>, x: Scored)
    requires Ranked(s)
    requires forall y :: y in s ==> y.index < x.index
    ensures Ranked(Insert(s, x))
  {
    if s != [] {
      if s[0].score >= x.score {
        var rest := Insert(s[1..], x);
        InsertRanked(s[1..], x);
        InsertPermutes(s[1..], x);
        forall j | 0 <= j < |rest|
          ensures Before(s[0], rest[j])
        {
          assert rest[j] in multiset(s[1..]) + multiset{x};
          if rest[j] in s[1..] {
            var m :| 0 <= m < |s[1..]| && s[1..][m] == rest[j];
            assert s[1..][m] == s[m + 1];
          }
        }
        var r := [s[0]] + rest;
        forall i, j | 0 <= i < j < |r|
          ensures Before(r[i], r[j])
        {
          if i == 0 {
            assert r[j] == rest[j - 1];
          } else {
            assert r[i] == rest[i - 1] && r[j] == rest[j - 1];
          }
        }
      } else {
        var r := [x] + s;
        forall i, j | 0 <= i < j < |r|
          ensures Before(r[i], r[j])
        {
          if i == 0 {
            assert r[j] == s[j - 1];
            if j > 1 {
              assert Before(s[0], s[j - 1]);
            }
          } else {
            assert r[i] == s[i - 1] && r[j] == s[j - 1];
          }
        }
      }
    }
  }

  /** Sorting permutes the list. */
  lemma {:induction false} SortPermutes(s: seq<Scored>)
    ensures multiset(SortByScoreDesc(s)) == multiset(s)
  {
    if s != [] {
      var init := s[..|s| - 1];
      SortPermutes(init);
      InsertPermutes(SortByScoreDesc(init), s[|s| - 1]);
      assert s == init + [s[|s| - 1]];
    }
  }

  /** Sorting a list in store order ranks it: descending score, ties in store order. */
  lemma {:induction false} SortRanks(s: seq<Scored>)
    requires InStoreOrder(s)
    ensures Ranked(SortByScoreDesc(s))
  {
    if s != [] {
      var init := s[..|s| - 1];
      var x := s[|s| - 1];
      assert InStoreOrder(init);
      SortRanks(init);
      SortPermutes(init);
      forall y | y in SortByScoreDesc(init)
        ensures y.index < x.index
      {
        assert y in multiset(init);
        var m :| 0 <= m < |init| && init[m] == y;
      }
      InsertRanked(SortByScoreDesc(init), x);
    }
  }

  /** At most one arrangement of a collection is ranked: the order the search returns is
      determined by the scores and store positions alone. */
  lemma {:induction false} RankedUnique(a: seq<Scored>, b: seq<Scored>)
    requires Ranked(a) && Ranked(b) && multiset(a) == multiset(b)
    ensures a == b
  {
    if a == [] {
      assert |b| == |multiset(b)| == 0;
    } else {
      assert |b| == |multiset(b)| == |a|;
      SameHead(a, b);
      TailPermutes(a, b);
      RankedTail(a);
      RankedTail(b);
      RankedUnique(a[1..], b[1..]);
    }
  }

  /** The head of a ranked list goes before every other element. */
  lemma SameHead(a: seq<Scored>, b: seq<Scored>)
    requires Ranked(a) && Ranked(b) && multiset(a) == multiset(b) && a != [] && b != []
    ensures a[0] == b[0]
  {
    assert a[0] in multiset(b) && b[0] in multiset(a);
    var k :| 0 <= k < |b| && b[k] == a[0];
    var m :| 0 <= m < |a| && a[m] == b[0];
    if k > 0 && m > 0 {
      // b[0] would go before a[0] and a[0] before b[0]
      assert false;
    }
  }

  lemma TailPermutes(a: seq<Scored>, b: seq<Scored>)
    requires multiset(a) == multiset(b) && a != [] && b != [] && a[0] == b[0]
    ensures multiset(a[1..]) == multiset(b[1..])
  {
    assert a == [a[0]] + a[1..] && b == [b[0]] + b[1..];
    assert multiset(a[1..]) == multiset(a) - multiset{a[0]};
    assert multiset(b[1..]) == multiset(b) - multiset{b[0]};
  }

  lemma RankedTail(a: seq<Scored>)
    requires Ranked(a) && a != []
    ensures Ranked(a[1..])
  {
    forall i, j | 0 <= i < j < |a[1..]|
      ensures Before(a[1..][i], a[1..][j])
    {
      assert a[1..][i] == a[i + 1] && a[1..][j] == a[j + 1];
    }
  }

  /** What the search's sort step is promised to return. */
  lemma SortSpec(s: seq<Scored>)
    requires InStoreOrder(s)
    ensures multiset(SortByScoreDesc(s)) == multiset(s)
    ensures Ranked(SortByScoreDesc(s))
    ensures NonIncreasing(SortByScoreDesc(s))
    ensures forall r :: Ranked(r) && multiset(r) == multiset(s) ==> r == SortByScoreDesc(s)
  {
    SortPermutes(s);
    SortRanks(s);
    forall r | Ranked(r) && multiset(r) == multiset(s)
      ensures r == SortByScoreDesc(s)
    {
      RankedUnique(r, SortByScoreDesc(s));
    }
  }
}
