/**
 * The query parameters of `GET /swipes/candidates` and the page it cuts from the ranked
 * list (backend/routes/swipes.js): `limit`, `offset`, `include_swiped`, and
 * `Array.prototype.slice` as ECMAScript defines it, for finite, fractional and infinite
 * arguments.
 */
module Paging {
  import opened Common

  /**
   * `Math.min(Number(limit) || 10, 30)`: 10 when the parameter is missing, zero or not
   * a number, otherwise the given value capped at 30, so plus infinity gives 30. Only
   * the cap from above exists: a negative value or minus infinity comes through
   * unchanged, and so does a fraction.
   */
  function EffectiveLimit(q: JsNum): (r: JsNum)
    ensures r.Num? || r.NegInf?
    ensures r.Num? ==> r.v <= 30.0
    ensures q.NaN? || q == Num(0.0) ==> r == FromInt(10)
    ensures q.PosInf? ==> r == FromInt(30)
    ensures q.NegInf? ==> r == NegInf
    ensures q.Num? && q.v != 0.0 ==> r == Num(if q.v < 30.0 then q.v else 30.0)
  {
    var n := if q.NaN? || q == Num(0.0) then FromInt(10) else q;
    if n.PosInf? || (n.Num? && n.v >= 30.0) then FromInt(30) else n
  }

  /**
   * `Math.max(0, Number(offset) || 0)`: never negative, 0 by default and for minus
   * infinity; a fraction and plus infinity come through unchanged.
   */
  function EffectiveOffset(q: JsNum): (r: JsNum)
    ensures r.Num? || r.PosInf?
    ensures r.Num? ==> r.v >= 0.0
    ensures q.NaN? || q.NegInf? ==> r == FromInt(0)
    ensures q.PosInf? ==> r == PosInf
    ensures q.Num? ==> r == Num(if q.v < 0.0 then 0.0 else q.v)
  {
    var n := if q.NaN? then FromInt(0) else q;
    if n.NegInf? || (n.Num? && n.v < 0.0) then FromInt(0) else n
  }

  /**
   * `include_swiped === undefined ? true : String(include_swiped) === 'true'`; the
   * parameter is given by its string form. Missing means true.
   */
  function IncludeSwiped(q: Option<string>): (r: bool)
    ensures q.None? ==> r
    ensures q.Some? ==> (r <==> q.value == "true")
  {
    match q
    case None => true
    case Some(s) => s == "true"
  }

  /** JavaScript's `+` on numbers: NaN when either side is NaN or the sides are opposite infinities. */
  function Add(a: JsNum, b: JsNum): (r: JsNum)
    ensures a.Num? && b.Num? ==> r == Num(a.v + b.v)
    ensures r.NaN? <==> a.NaN? || b.NaN? || (a.PosInf? && b.NegInf?) || (a.NegInf? && b.PosInf?)
    ensures !r.NaN? && (a.PosInf? || b.PosInf?) ==> r.PosInf?
    ensures !r.NaN? && (a.NegInf? || b.NegInf?) ==> r.NegInf?
  {
    if a.NaN? || b.NaN? || (a.PosInf? && b.NegInf?) || (a.NegInf? && b.PosInf?) then NaN
    else if a.PosInf? || b.PosInf? then PosInf
    else if a.NegInf? || b.NegInf? then NegInf
    else Num(a.v + b.v)
  }

  /** `ToIntegerOrInfinity` on a finite number: its integer part, truncated toward zero. */
  function Trunc(v: real): (r: int)
    ensures 0.0 <= v ==> 0 <= r && r as real <= v < r as real + 1.0
    ensures v < 0.0 ==> r <= 0 && r as real - 1.0 < v <= r as real
  {
    if 0.0 <= v then v.Floor else -((-v).Floor)
  }

  /** How `slice` turns an integral relative index into a position: negative counts from the end, clamped to `[0, len]`. */
  function RelativeIndex(i: int, len: nat): (r: nat)
    ensures r <= len
    ensures 0 <= i ==> r == if i < len then i else len
    ensures i < 0 ==> r == if len + i < 0 then 0 else len + i
  {
    if i < 0 then (if len + i < 0 then 0 else len + i)
    else if i < len then i else len
  }

  /**
   * How `slice` turns an argument into a position: NaN is the start, minus infinity the
   * start and plus infinity the end; a finite number is truncated toward zero first.
   */
  function SliceIndex(x: JsNum, len: nat): (r: nat)
    ensures r <= len
    ensures x.NaN? || x.NegInf? ==> r == 0
    ensures x.PosInf? ==> r == len
    ensures x.Num? ==> r == RelativeIndex(Trunc(x.v), len)
  {
    match x
    case NaN => 0
    case NegInf => 0
    case PosInf => len
    case Num(v) => RelativeIndex(Trunc(v), len)
  }

  /** `s.slice(start, end)`: the elements from the start position up to the end position, none when they cross. */
  function JsSlice<T>(s: seq<T>, start: JsNum, end: JsNum): (r: seq<T>)
    ensures var k, f := SliceIndex(start, |s|), SliceIndex(end, |s|);
            r == if k <= f then s[k..f] else []
  {
    var k, f := SliceIndex(start, |s|), SliceIndex(end, |s|);
    if k <= f then s[k..f] else []
  }

  /** `sorted.slice(offset, offset + limit)`. */
  function Page<T>(sorted: seq<T>, offset: JsNum, limit: JsNum): seq<T>
  {
    JsSlice(sorted, offset, Add(offset, limit))
  }

  /**
   * With a finite offset and limit that are not negative, the page is the window from
   * the integer part of `offset` to the integer part of `offset + limit`, cut at the
   * end of the list.
   */
  lemma PageWindow<T>(sorted: seq<T>, offset: real, limit: real)
    requires offset >= 0.0 && limit >= 0.0
    ensures offset.Floor <= (offset + limit).Floor
    ensures Page(sorted, Num(offset), Num(limit))
         == sorted[Min(offset.Floor, |sorted|)..Min((offset + limit).Floor, |sorted|)]
    ensures |Page(sorted, Num(offset), Num(limit))| <= (offset + limit).Floor - offset.Floor
    ensures (offset + limit).Floor <= |sorted| ==>
              |Page(sorted, Num(offset), Num(limit))| == (offset + limit).Floor - offset.Floor
  {
  }

  /** With integral arguments, a page holds at most `limit` entries, and exactly `limit` when the list reaches that far. */
  lemma IntegralPageLength<T>(sorted: seq<T>, offset: int, limit: int)
    requires offset >= 0 && limit >= 0
    ensures Page(sorted, FromInt(offset), FromInt(limit)) == sorted[Min(offset, |sorted|)..Min(offset + limit, |sorted|)]
    ensures |Page(sorted, FromInt(offset), FromInt(limit))| <= limit
    ensures offset + limit <= |sorted| ==> |Page(sorted, FromInt(offset), FromInt(limit))| == limit
  {
    PageWindow(sorted, offset as real, limit as real);
    assert (offset as real + limit as real).Floor == offset + limit;
  }

  /** A fractional limit at an integral offset is cut down to its integer part. */
  lemma FractionalLimitRoundsDown<T>(sorted: seq<T>, offset: int, limit: real)
    requires offset >= 0 && limit >= 0.0
    ensures Page(sorted, FromInt(offset), Num(limit)) == Page(sorted, FromInt(offset), FromInt(limit.Floor))
  {
    PageWindow(sorted, offset as real, limit);
    PageWindow(sorted, offset as real, limit.Floor as real);
    assert (offset as real + limit).Floor == offset + limit.Floor;
  }

  /** A fractional offset with an integral limit starts the page at the offset's integer part. */
  lemma FractionalOffsetRoundsDown<T>(sorted: seq<T>, offset: real, limit: int)
    requires offset >= 0.0 && limit >= 0
    ensures Page(sorted, Num(offset), FromInt(limit)) == Page(sorted, FromInt(offset.Floor), FromInt(limit))
  {
    PageWindow(sorted, offset, limit as real);
    PageWindow(sorted, offset.Floor as real, limit as real);
    assert (offset + limit as real).Floor == offset.Floor + limit;
  }

  /**
   * Two fractions can add up to one more entry than the limit's integer part:
   * `slice(0.5, 1)` holds the first entry although the limit `0.5` rounds down to 0.
   */
  lemma FractionalPartsAddUp<T>(sorted: seq<T>)
    requires sorted != []
    ensures Page(sorted, Num(0.5), Num(0.5)) == sorted[..1]
    ensures Page(sorted, FromInt(0), FromInt(0)) == []
  {
    PageWindow(sorted, 0.5, 0.5);
    PageWindow(sorted, 0.0, 0.0);
  }

  /**
   * The infinities: a limit of plus infinity is capped at 30, a limit of minus infinity
   * gives an empty page at any offset, and so does an offset of plus infinity at any limit.
   */
  lemma InfiniteQueries<T>(sorted: seq<T>, limitQ: JsNum, offsetQ: JsNum)
    ensures EffectiveLimit(PosInf) == FromInt(30)
    ensures Page(sorted, EffectiveOffset(offsetQ), EffectiveLimit(NegInf)) == []
    ensures Page(sorted, EffectiveOffset(PosInf), EffectiveLimit(limitQ)) == []
  {
  }

  /** Each handler page holds at most 30 entries when the limit parameter is missing, infinite or not negative. */
  lemma PageAtMost30<T>(sorted: seq<T>, limitQ: JsNum, offsetQ: JsNum)
    requires limitQ.NaN? || limitQ.PosInf? || (limitQ.Num? && limitQ.v >= 0.0)
    ensures |Page(sorted, EffectiveOffset(offsetQ), EffectiveLimit(limitQ))| <= 30
  {
    var offset, limit := EffectiveOffset(offsetQ), EffectiveLimit(limitQ);
    if offset.Num? {
      PageWindow(sorted, offset.v, limit.v);
      assert (offset.v + limit.v).Floor < offset.v.Floor + 31;
    }
  }

  /** The pages at `offset` and `offset + limit` follow each other without gap or overlap. */
  lemma ConsecutivePagesTile<T>(sorted: seq<T>, offset: int, limit: int)
    requires offset >= 0 && limit >= 1
    ensures Page(sorted, FromInt(offset), FromInt(limit)) + Page(sorted, FromInt(offset + limit), FromInt(limit))
         == Page(sorted, FromInt(offset), FromInt(2 * limit))
  {
    var n := |sorted|;
    var lo, mid, hi := Min(offset, n), Min(offset + limit, n), Min(offset + 2 * limit, n);
    IntegralPageLength(sorted, offset, limit);
    IntegralPageLength(sorted, offset + limit, limit);
    IntegralPageLength(sorted, offset, 2 * limit);
    assert Min(offset + limit + limit, n) == hi;
    SlicesAdjoin(sorted, lo, mid, hi);
  }

  /** Adjacent slices put together give the slice that spans both. */
  lemma SlicesAdjoin<T>(s: seq<T>, lo: int, mid: int, hi: int)
    requires 0 <= lo <= mid <= hi <= |s|
    ensures s[lo..mid] + s[mid..hi] == s[lo..hi]
  {
    assert s[lo..hi] == s[lo..hi][..mid - lo] + s[lo..hi][mid - lo..];
  }

  /** In a list without repetitions, consecutive pages share no entry. */
  lemma ConsecutivePagesDisjoint<T>(sorted: seq<T>, offset: int, limit: int)
    requires NoDups(sorted)
    requires offset >= 0 && limit >= 1
    ensures forall x :: x in Page(sorted, FromInt(offset), FromInt(limit)) ==>
                        x !in Page(sorted, FromInt(offset + limit), FromInt(limit))
  {
    var n := |sorted|;
    var lo, mid, hi := Min(offset, n), Min(offset + limit, n), Min(offset + 2 * limit, n);
    IntegralPageLength(sorted, offset, limit);
    IntegralPageLength(sorted, offset + limit, limit);
    assert Min(offset + limit + limit, n) == hi;
    SlicesDisjoint(sorted, lo, mid, hi);
  }

  /** In a list without repetitions, adjacent slices share no element. */
  lemma SlicesDisjoint<T>(s: seq<T>, lo: int, mid: int, hi: int)
    requires NoDups(s)
    requires 0 <= lo <= mid <= hi <= |s|
    ensures forall x :: x in s[lo..mid] ==> x !in s[mid..hi]
  {
    forall x | x in s[lo..mid] ensures x !in s[mid..hi] {
      var i :| lo <= i < mid && s[i] == x;
      forall j | mid <= j < hi ensures s[j] != x {
        assert i < j;
      }
    }
  }

  /**
   * A negative limit reaches `slice` as a negative end, which counts from the end of the
   * list: at offset 0 the page is every candidate but the last `-limit`, so it can hold
   * more than 30 entries.
   */
  lemma NegativeLimitCountsFromEnd<T>(sorted: seq<T>, limit: int)
    requires limit < 0
    ensures |sorted| + limit >= 0 ==> Page(sorted, FromInt(0), FromInt(limit)) == sorted[..|sorted| + limit]
    ensures |sorted| + limit < 0 ==> Page(sorted, FromInt(0), FromInt(limit)) == []
    ensures EffectiveLimit(FromInt(limit)) == FromInt(limit)
  {
    assert (0.0 + limit as real) == limit as real;
    assert Trunc(limit as real) == limit;
  }
}
