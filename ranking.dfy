/**
 * `results.sort(key=lambda x: x[1], reverse=True)` on `(chunk_id, similarity)`
 * pairs. Python's sort is stable, also with `reverse=True`: pairs with equal
 * scores keep the order in which they were appended.
 */
module Ranking {

  datatype Scored = Scored(chunkId: string, score: real)

  predicate SortedDesc(s: seq<Scored>) {
    forall i, j :: 0 <= i < j < |s| ==> s[i].score >= s[j].score
  }

  /** Places `x` after every element scoring at least as much as it (the element before it in a stable sort). */
  function Insert(s: seq<Scored>, x: Scored): (r: seq<Scored>)
    ensures |r| == |s| + 1
    decreases |s|
  {
    if s == [] then [x]
    else if s[|s| - 1].score >= x.score then s + [x]
    else Insert(s[..|s| - 1], x) + [s[|s| - 1]]
  }

  lemma {:induction false} InsertPermutes(s: seq<Scored>, x: Scored)
    ensures multiset(Insert(s, x)) == multiset(s) + multiset{x}
    decreases |s|
  {
    if s != [] && s[|s| - 1].score < x.score {
      var init, last := s[..|s| - 1], s[|s| - 1];
      assert s == init + [last];
      InsertPermutes(init, x);
    }
  }

  /** Insertion sort, one element at a time in input order: a stable sort by descending score. */
  function SortDesc(s: seq<Scored>): (r: seq<Scored>)
    ensures |r| == |s|
    decreases |s|
  {
    if s == [] then [] else Insert(SortDesc(s[..|s| - 1]), s[|s| - 1])
  }

  /** The sort neither drops nor invents an element. */
  lemma {:induction false} SortDescPermutes(s: seq<Scored>)
    ensures multiset(SortDesc(s)) == multiset(s)
    decreases |s|
  {
    if s != [] {
      var init, last := s[..|s| - 1], s[|s| - 1];
      assert s == init + [last];
      SortDescPermutes(init);
      InsertPermutes(SortDesc(init), last);
    }
  }

  /** Every element of `s` scores at least `b`. */
  predicate AllAtLeast(s: seq<Scored>, b: real) {
    forall i :: 0 <= i < |s| ==> s[i].score >= b
  }

  lemma SortedSnoc(s: seq<Scored>, x: Scored)
    requires SortedDesc(s) && AllAtLeast(s, x.score)
    ensures SortedDesc(s + [x])
  {
    var r := s + [x];
    forall i, j | 0 <= i < j < |r| ensures r[i].score >= r[j].score {
      assert r[i] == s[i];
      if j < |s| { assert r[j] == s[j]; }
    }
  }

  lemma {:induction false} InsertAtLeast(s: seq<Scored>, x: Scored, b: real)
    requires AllAtLeast(s, b) && x.score >= b
    ensures AllAtLeast(Insert(s, x), b)
    decreases |s|
  {
    if s != [] && s[|s| - 1].score < x.score {
      var init := s[..|s| - 1];
      InsertAtLeast(init, x, b);
      var r := Insert(s, x);
      assert r == Insert(init, x) + [s[|s| - 1]];
      forall i | 0 <= i < |r| ensures r[i].score >= b {
        if i < |r| - 1 { assert r[i] == Insert(init, x)[i]; }
      }
    } else if s != [] {
      var r := s + [x];
      forall i | 0 <= i < |r| ensures r[i].score >= b {
        if i < |s| { assert r[i] == s[i]; }
      }
    }
  }

  lemma {:induction false} InsertSorted(s: seq<Scored>, x: Scored)
    requires SortedDesc(s)
    ensures SortedDesc(Insert(s, x))
    decreases |s|
  {
    if s == [] {
      assert Insert(s, x) == [x];
    } else if s[|s| - 1].score < x.score {
      var init, last := s[..|s| - 1], s[|s| - 1];
      assert SortedDesc(init) && AllAtLeast(init, last.score) by {
        forall i | 0 <= i < |init| ensures init[i] == s[i] { }
      }
      InsertSorted(init, x);
      InsertAtLeast(init, x, last.score);
      SortedSnoc(Insert(init, x), last);
    } else {
      assert AllAtLeast(s, x.score) by {
        forall i | 0 <= i < |s| ensures s[i].score >= x.score {
          assert s[i].score >= s[|s| - 1].score || i == |s| - 1;
        }
      }
      SortedSnoc(s, x);
    }
  }

  /** The sort orders by descending score. */
  lemma {:induction false} SortDescSorted(s: seq<Scored>)
    ensures SortedDesc(SortDesc(s))
    decreases |s|
  {
    if s != [] {
      SortDescSorted(s[..|s| - 1]);
      InsertSorted(SortDesc(s[..|s| - 1]), s[|s| - 1]);
    }
  }

  /** The elements scoring exactly `v`, in order. */
  function WithScore(s: seq<Scored>, v: real): (r: seq<Scored>)
    ensures |r| <= |s|
    decreases |s|
  {
    if s == [] then []
    else WithScore(s[..|s| - 1], v) + (if s[|s| - 1].score == v then [s[|s| - 1]] else [])
  }

  lemma {:induction false} WithScoreAppend(a: seq<Scored>, b: seq<Scored>, v: real)
    ensures WithScore(a + b, v) == WithScore(a, v) + WithScore(b, v)
    decreases |b|
  {
    if b == [] {
      assert a + b == a;
    } else {
      var init, last := b[..|b| - 1], b[|b| - 1];
      assert (a + b)[..|a + b| - 1] == a + init && (a + b)[|a + b| - 1] == last;
      WithScoreAppend(a, init, v);
    }
  }

  lemma WithScoreSingle(x: Scored, v: real)
    ensures WithScore([x], v) == if x.score == v then [x] else []
  {
    assert [x][..0] == [];
  }

  lemma {:induction false} InsertStable(s: seq<Scored>, x: Scored, v: real)
    ensures WithScore(Insert(s, x), v) == WithScore(s, v) + WithScore([x], v)
    decreases |s|
  {
    if s == [] {
      assert WithScore(s, v) == [];
      assert Insert(s, x) == [x];
    } else if s[|s| - 1].score >= x.score {
      assert Insert(s, x) == s + [x];
      WithScoreAppend(s, [x], v);
    } else {
      var init, last := s[..|s| - 1], s[|s| - 1];
      InsertStable(init, x, v);
      assert Insert(s, x) == Insert(init, x) + [last];
      assert s == init + [last];
      InsertStableStep(Insert(init, x), init, last, x, v);
    }
  }

  /** `x` passes an element scoring less than itself, so the two never share a score. */
  lemma InsertStableStep(t: seq<Scored>, init: seq<Scored>, last: Scored, x: Scored, v: real)
    requires last.score < x.score
    requires WithScore(t, v) == WithScore(init, v) + WithScore([x], v)
    ensures WithScore(t + [last], v) == WithScore(init + [last], v) + WithScore([x], v)
  {
    WithScoreAppend(t, [last], v);
    WithScoreAppend(init, [last], v);
    WithScoreSingle(x, v);
    WithScoreSingle(last, v);
    var a, bx, bl := WithScore(init, v), WithScore([x], v), WithScore([last], v);
    assert bx + bl == bl + bx by {
      if x.score == v { assert bl == []; } else { assert bx == []; }
    }
    assert (a + bx) + bl == (a + bl) + bx by {
      assert (a + bx) + bl == a + (bx + bl) && (a + bl) + bx == a + (bl + bx);
    }
  }

  /** The sort is stable: among equally scored elements the input order survives. */
  lemma {:induction false} SortDescStable(s: seq<Scored>, v: real)
    ensures WithScore(SortDesc(s), v) == WithScore(s, v)
    decreases |s|
  {
    if s != [] {
      var init, last := s[..|s| - 1], s[|s| - 1];
      SortDescStable(init, v);
      InsertStable(SortDesc(init), last, v);
    }
  }
  /**
   * A prefix `r` of a descending arrangement `all` of `c` takes the best of `c`: nothing
   * after the prefix scores above an element of it, and prefix plus rest is all of `c`.
   */
  lemma SortedPrefixBest(r: seq<Scored>, all: seq<Scored>, c: seq<Scored>)
    requires SortedDesc(all) && multiset(all) == multiset(c) && r <= all
    ensures forall i, j :: 0 <= i < |r| <= j < |all| ==> r[i].score >= all[j].score
    ensures multiset(r) + multiset(all[|r|..]) == multiset(c)
  {
    assert all == r + all[|r|..];
    forall i, j | 0 <= i < |r| <= j < |all| ensures r[i].score >= all[j].score {
      assert r[i] == all[i];
    }
  }
}
