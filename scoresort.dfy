/**
 * `candidates.sort((a, b) => b.score - a.score)` (backend/routes/swipes.js): JavaScript's
 * `Array.prototype.sort` is stable, so the array ends up in non-increasing score order
 * with candidates of equal score in their earlier relative order. `SortByScore` is a
 * reference stable sort; `StableSortIsUnique` shows that every order with those two
 * properties is that one, whatever algorithm the JavaScript engine runs.
 */
module ScoreSort {
  import opened Common
  import opened Tables

  ghost predicate NonIncreasing(cs: seq<Candidate>)
  {
    forall i, j :: 0 <= i < j < |cs| ==> cs[i].score >= cs[j].score
  }

  /** The candidates with score `v`, in list order. */
  function WithScore(cs: seq<Candidate>, v: int): (r: seq<Candidate>)
    ensures forall x :: x in r ==> x in cs && x.score == v
  {
    if cs == [] then []
    else (if cs[0].score == v then [cs[0]] else []) + WithScore(cs[1..], v)
  }

  /** `r` is `s` sorted by descending score with equal scores kept in their order in `s`. */
  ghost predicate IsStableSortOf(s: seq<Candidate>, r: seq<Candidate>)
  {
    NonIncreasing(r) && forall v :: WithScore(r, v) == WithScore(s, v)
  }

  /** Puts `x` in front of the first candidate of `t` whose score is not greater than its own. */
  function Insert(x: Candidate, t: seq<Candidate>): (r: seq<Candidate>)
    ensures |r| == |t| + 1
  {
    if t == [] || x.score >= t[0].score then [x] + t
    else [t[0]] + Insert(x, t[1..])
  }

  /** Insertion sort by descending score; an element goes before later ones of equal score. */
  function SortByScore(s: seq<Candidate>): (r: seq<Candidate>)
    ensures |r| == |s|
  {
    if s == [] then [] else Insert(s[0], SortByScore(s[1..]))
  }

  lemma WithScoreCons(x: Candidate, t: seq<Candidate>, v: int)
    ensures WithScore([x] + t, v) == (if x.score == v then [x] else []) + WithScore(t, v)
  {
    assert ([x] + t)[1..] == t;
  }

  lemma {:induction false} InsertPermutes(x: Candidate, t: seq<Candidate>)
    ensures multiset(Insert(x, t)) == multiset{x} + multiset(t)
    decreases |t|
  {
    if !(t == [] || x.score >= t[0].score) {
      assert t == [t[0]] + t[1..];
      InsertPermutes(x, t[1..]);
    }
  }

  lemma {:induction false} InsertKeepsOrder(x: Candidate, t: seq<Candidate>)
    requires NonIncreasing(t)
    ensures NonIncreasing(Insert(x, t))
    decreases |t|
  {
    if !(t == [] || x.score >= t[0].score) {
      var t' := t[1..];
      InsertKeepsOrder(x, t');
      InsertPermutes(x, t');
      var r := Insert(x, t');
      forall y | y in r ensures y.score <= t[0].score {
        assert y in multiset(r);
        assert y == x || y in multiset(t');
      }
      assert Insert(x, t) == [t[0]] + r;
    }
  }

  lemma {:induction false} InsertWithScore(x: Candidate, t: seq<Candidate>, v: int)
    ensures WithScore(Insert(x, t), v) == (if x.score == v then [x] else []) + WithScore(t, v)
    decreases |t|
  {
    if t == [] || x.score >= t[0].score {
      WithScoreCons(x, t, v);
    } else {
      var t' := t[1..];
      var r' := Insert(x, t');
      assert t == [t[0]] + t';
      assert Insert(x, t) == [t[0]] + r';
      InsertWithScore(x, t', v);
      WithScoreCons(t[0], r', v);
      WithScoreCons(t[0], t', v);
      if x.score == v {
        assert WithScore(Insert(x, t), v) == WithScore(r', v);
        assert WithScore(t, v) == WithScore(t', v);
      } else if t[0].score == v {
        assert WithScore(r', v) == WithScore(t', v);
      } else {
        assert WithScore(Insert(x, t), v) == WithScore(r', v);
      }
    }
  }

  /** The reference sort is a stable sort by descending score, and a permutation. */
  lemma {:induction false} SortByScoreIsStableSort(s: seq<Candidate>)
    ensures IsStableSortOf(s, SortByScore(s))
    ensures multiset(SortByScore(s)) == multiset(s)
    decreases |s|
  {
    if s != [] {
      var rest := SortByScore(s[1..]);
      SortByScoreIsStableSort(s[1..]);
      InsertPermutes(s[0], rest);
      InsertKeepsOrder(s[0], rest);
      assert s == [s[0]] + s[1..];
      forall v ensures WithScore(SortByScore(s), v) == WithScore(s, v) {
        InsertWithScore(s[0], rest, v);
        WithScoreCons(s[0], s[1..], v);
      }
    }
  }

  /** A candidate in a list ordered by non-increasing score has at most the first one's score. */
  lemma AtMostHead(cs: seq<Candidate>, x: Candidate)
    requires NonIncreasing(cs) && x in cs
    ensures x.score <= cs[0].score
  {
    var j :| 0 <= j < |cs| && cs[j] == x;
  }

  /** If a candidate list is non-empty, so is its slice of the first candidate's score. */
  lemma HeadInWithScore(cs: seq<Candidate>)
    ensures cs != [] ==> WithScore(cs, cs[0].score) != [] && WithScore(cs, cs[0].score)[0] == cs[0]
  {
  }

  /** Orders that agree score by score start with the same candidate. */
  lemma SameHead(a: seq<Candidate>, b: seq<Candidate>)
    requires NonIncreasing(a) && NonIncreasing(b) && a != []
    requires forall v :: WithScore(a, v) == WithScore(b, v)
    ensures b != [] && a[0] == b[0]
  {
    var s := a[0].score;
    HeadInWithScore(a);
    assert WithScore(a, s) == WithScore(b, s);
    assert a[0] in WithScore(b, s) by {
      assert WithScore(a, s)[0] in WithScore(a, s);
    }
    HeadInWithScore(b);
    var t := b[0].score;
    assert WithScore(b, t) == WithScore(a, t);
    assert b[0] in WithScore(a, t) by {
      assert WithScore(b, t)[0] in WithScore(b, t);
    }
    AtMostHead(b, a[0]);
    AtMostHead(a, b[0]);
    assert s == t;
  }

  /** Two orders that are both non-increasing in score and agree score by score are the same. */
  lemma {:induction false} SameScoreOrdersEqual(a: seq<Candidate>, b: seq<Candidate>)
    requires NonIncreasing(a) && NonIncreasing(b)
    requires forall v :: WithScore(a, v) == WithScore(b, v)
    ensures a == b
    decreases |a|
  {
    if a == [] {
      HeadInWithScore(b);
    } else {
      SameHead(a, b);
      assert a == [a[0]] + a[1..];
      assert b == [b[0]] + b[1..];
      forall v ensures WithScore(a[1..], v) == WithScore(b[1..], v) {
        WithScoreCons(a[0], a[1..], v);
        WithScoreCons(b[0], b[1..], v);
        assert WithScore(a, v) == WithScore(b, v);
        assert a[0] == b[0];
        if a[0].score != v {
          assert WithScore(a, v) == WithScore(a[1..], v);
          assert WithScore(b, v) == WithScore(b[1..], v);
        } else {
          assert WithScore(a, v) == [a[0]] + WithScore(a[1..], v);
          assert WithScore(b, v) == [a[0]] + WithScore(b[1..], v);
          assert WithScore(a[1..], v) == WithScore(a, v)[1..];
          assert WithScore(b[1..], v) == WithScore(b, v)[1..];
        }
      }
      SameScoreOrdersEqual(a[1..], b[1..]);
    }
  }

  /**
   * Any order that is non-increasing in score and keeps equal scores in their input
   * order is the reference sort's result.
   */
  lemma StableSortIsUnique(s: seq<Candidate>, r: seq<Candidate>)
    requires IsStableSortOf(s, r)
    ensures r == SortByScore(s)
  {
    SortByScoreIsStableSort(s);
    SameScoreOrdersEqual(r, SortByScore(s));
  }
}
