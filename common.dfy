/** Values and sequence helpers shared by every route of the backend model. */
module Common {

  datatype Option<T> = None | Some(value: T)

  /** A value taken from a JSON request body, as far as the handlers look at it. */
  datatype JsValue =
    | JsUndefined
    | JsNull
    | JsBool(b: bool)
    | JsInt(n: int)          // a finite number without a fractional part
    | JsNonInteger           // a number with a fractional part, or an infinity
    | JsNaN
    | JsString(s: string)
    | JsObject               // an object or an array

  /** JavaScript's `Boolean(v)`: the falsy values are undefined, null, false, 0, NaN and "". */
  predicate Truthy(v: JsValue)
  {
    match v
    case JsUndefined => false
    case JsNull => false
    case JsBool(b) => b
    case JsInt(n) => n != 0
    case JsNonInteger => true
    case JsNaN => false
    case JsString(s) => s != ""
    case JsObject => true
  }

  /**
   * The result of JavaScript's `Number(x)` on a query-string parameter: not a number, a
   * finite number (a double, taken here as an exact real), or one of the two infinities.
   */
  datatype JsNum = NaN | Num(v: real) | PosInf | NegInf

  /** An integer as a JavaScript number. */
  function FromInt(n: int): JsNum
  {
    Num(n as real)
  }

  function Min(a: int, b: int): int { if a < b then a else b }
  function Max(a: int, b: int): int { if a < b then b else a }

  /** The elements of `s` that satisfy `p`, in their order in `s`. */
  function Filter<T(!new)>(s: seq<T>, p: T -> bool): (r: seq<T>)
    ensures |r| <= |s|
    ensures forall x :: x in r <==> x in s && p(x)
    ensures forall i :: 0 <= i < |r| ==> p(r[i])
  {
    if s == [] then []
    else
      var init := Filter(s[..|s| - 1], p);
      assert forall x :: x in s <==> x in s[..|s| - 1] || x == s[|s| - 1];
      if p(s[|s| - 1]) then init + [s[|s| - 1]] else init
  }

  /** Filtering distributes over concatenation. */
  lemma {:induction false} FilterConcat<T(!new)>(a: seq<T>, b: seq<T>, p: T -> bool)
    ensures Filter(a + b, p) == Filter(a, p) + Filter(b, p)
    decreases |b|
  {
    if b == [] {
      assert a + b == a;
    } else {
      var b' := b[..|b| - 1];
      assert (a + b)[..|a + b| - 1] == a + b';
      assert b[..|b| - 1] == b';
      FilterConcat(a, b', p);
    }
  }

  /** `key` grows strictly along `s`. */
  ghost predicate IncreasingBy<T>(s: seq<T>, key: T -> int)
  {
    forall i, j :: 0 <= i < j < |s| ==> key(s[i]) < key(s[j])
  }

  /** `key` shrinks strictly along `s`. */
  ghost predicate DecreasingBy<T>(s: seq<T>, key: T -> int)
  {
    forall i, j :: 0 <= i < j < |s| ==> key(s[i]) > key(s[j])
  }

  /** Keeping only some elements keeps them in their order. */
  lemma {:induction false} FilterKeepsIncreasing<T(!new)>(s: seq<T>, p: T -> bool, key: T -> int)
    requires IncreasingBy(s, key)
    ensures IncreasingBy(Filter(s, p), key)
    decreases |s|
  {
    if s != [] {
      var init := s[..|s| - 1];
      assert IncreasingBy(init, key);
      FilterKeepsIncreasing(init, p, key);
      var r := Filter(s, p);
      if p(s[|s| - 1]) {
        var fi := Filter(init, p);
        assert r == fi + [s[|s| - 1]];
        forall i | 0 <= i < |fi|
          ensures key(fi[i]) < key(s[|s| - 1])
        {
          assert fi[i] in init;
          var k :| 0 <= k < |init| && init[k] == fi[i];
          assert s[k] == fi[i];
        }
      }
    }
  }

  /** `s` read backwards. */
  function Reverse<T>(s: seq<T>): (r: seq<T>)
    ensures |r| == |s|
    ensures forall i :: 0 <= i < |s| ==> r[i] == s[|s| - 1 - i]
  {
    if s == [] then [] else [s[|s| - 1]] + Reverse(s[..|s| - 1])
  }

  /** Reading an increasing sequence backwards gives a decreasing one. */
  lemma ReverseOfIncreasing<T>(s: seq<T>, key: T -> int)
    requires IncreasingBy(s, key)
    ensures DecreasingBy(Reverse(s), key)
  {
  }

  /** Reversing keeps the elements. */
  lemma ReverseKeepsElements<T>(s: seq<T>)
    ensures forall x :: x in Reverse(s) <==> x in s
  {
    var r := Reverse(s);
    forall x | x in s ensures x in r {
      var i :| 0 <= i < |s| && s[i] == x;
      assert r[|s| - 1 - i] == x;
    }
  }

  /** No element occurs twice. */
  predicate NoDups<T(==)>(s: seq<T>)
  {
    forall i, j :: 0 <= i < j < |s| ==> s[i] != s[j]
  }

  /** A list starting with `h` has no repetitions exactly when its tail has none and lacks `h`. */
  lemma NoDupsCons<T>(h: T, s: seq<T>)
    ensures NoDups([h] + s) <==> NoDups(s) && h !in s
  {
    var r := [h] + s;
    if NoDups(r) {
      forall i, j | 0 <= i < j < |s| ensures s[i] != s[j] {
        assert s[i] == r[i + 1] && s[j] == r[j + 1];
      }
      forall i | 0 <= i < |s| ensures s[i] != h {
        assert s[i] == r[i + 1] && h == r[0];
      }
    }
    if NoDups(s) && h !in s {
      forall i, j | 0 <= i < j < |r| ensures r[i] != r[j] {
        assert r[j] == s[j - 1];
        assert i > 0 ==> r[i] == s[i - 1];
      }
    }
  }

  /**
   * The elements of `s` without repetitions, in the order of their first occurrence:
   * what `[...new Set(s)]` gives, and the key order of a JavaScript `Map` filled from `s`.
   */
  function Distinct<T(==,!new)>(s: seq<T>): (r: seq<T>)
    ensures NoDups(r)
    ensures forall x :: x in r <==> x in s
    ensures |r| <= |s|
  {
    if s == [] then []
    else
      var init := Distinct(s[..|s| - 1]);
      assert forall x :: x in s <==> x in s[..|s| - 1] || x == s[|s| - 1];
      if s[|s| - 1] in init then init else init + [s[|s| - 1]]
  }

  /** The first occurrences of the elements of `a` come before those of the new elements of `b`. */
  lemma {:induction false} DistinctConcat<T(!new)>(a: seq<T>, b: seq<T>)
    ensures |Distinct(a)| <= |Distinct(a + b)|
    ensures Distinct(a + b)[..|Distinct(a)|] == Distinct(a)
    decreases |b|
  {
    if b == [] {
      assert a + b == a;
    } else {
      var b' := b[..|b| - 1];
      assert (a + b)[..|a + b| - 1] == a + b';
      DistinctConcat(a, b');
    }
  }

  /** The same for a sequence made of three parts: those of the first part come first. */
  lemma DistinctConcat3<T(!new)>(a: seq<T>, b: seq<T>, c: seq<T>)
    ensures |Distinct(a)| <= |Distinct(a + b + c)|
    ensures Distinct(a + b + c)[..|Distinct(a)|] == Distinct(a)
  {
    assert a + b + c == a + (b + c);
    DistinctConcat(a, b + c);
  }

  /** One more element joins the distinct elements at the end exactly when it is new. */
  lemma DistinctSnoc<T(!new)>(s: seq<T>, x: T)
    ensures Distinct(s + [x]) == if x in s then Distinct(s) else Distinct(s) + [x]
  {
    assert (s + [x])[..|s|] == s;
  }

  /** With no repetitions, the distinct elements are the sequence itself. */
  lemma {:induction false} DistinctOfNoDups<T(!new)>(s: seq<T>)
    requires NoDups(s)
    ensures Distinct(s) == s
    decreases |s|
  {
    if s != [] {
      var init := s[..|s| - 1];
      DistinctOfNoDups(init);
      assert s == init + [s[|s| - 1]];
      DistinctSnoc(init, s[|s| - 1]);
    }
  }

  /** A sequence without repetitions has as many elements as its set. */
  lemma {:induction false} NoDupsCardinality<T>(s: seq<T>)
    requires NoDups(s)
    ensures |set x | x in s| == |s|
    decreases |s|
  {
    if s != [] {
      var init := s[..|s| - 1];
      var last := s[|s| - 1];
      NoDupsCardinality(init);
      assert (set x | x in s) == (set x | x in init) + {last};
      assert last !in init;
    }
  }

  /** Two sequences without repetitions and with the same elements have the same length. */
  lemma SameElementsSameLength<T>(a: seq<T>, b: seq<T>)
    requires NoDups(a) && NoDups(b)
    requires forall x :: x in a <==> x in b
    ensures |a| == |b|
  {
    NoDupsCardinality(a);
    NoDupsCardinality(b);
    assert (set x | x in a) == (set x | x in b);
  }

  /** `s` with at most its first `n` elements (an SQL `LIMIT n`). */
  function Take<T>(s: seq<T>, n: nat): (r: seq<T>)
    ensures |r| <= n && |r| <= |s|
    ensures r == s[..|r|]
    ensures |s| <= n ==> r == s
    ensures forall x :: x in r ==> x in s
  {
    if |s| <= n then s else s[..n]
  }
}
