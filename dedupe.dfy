/**
 * `dedupeById` of the candidate route (backend/routes/swipes.js): one entry per card id,
 * preferring a copy that carries a photo.
 */
module Dedupe {
  import opened Common
  import opened Tables

  /** The card ids of a list of card views, in list order. */
  function CardIds(vs: seq<CardView>): (r: seq<int>)
    ensures |r| == |vs| && forall i :: 0 <= i < |vs| ==> r[i] == vs[i].id
  {
    seq(|vs|, i requires 0 <= i < |vs| => vs[i].id)
  }

  /** The views of card `k` in `vs`, in list order. */
  function CopiesOf(vs: seq<CardView>, k: int): (r: seq<CardView>)
    ensures forall c :: c in r <==> c in vs && c.id == k
  {
    Filter(vs, (c: CardView) => c.id == k)
  }

  /** The first copy with a photo, if any. */
  function FirstPhoto(copies: seq<CardView>): (r: Option<CardView>)
    ensures r.Some? ==> r.value in copies && HasPhoto(r.value)
    ensures r.None? <==> forall i :: 0 <= i < |copies| ==> !HasPhoto(copies[i])
  {
    if copies == [] then None
    else if HasPhoto(copies[0]) then Some(copies[0])
    else FirstPhoto(copies[1..])
  }

  /**
   * The copy `dedupeById` keeps among the copies of one card: the first copy that has
   * a photo, or the first copy when none has one.
   */
  function Preferred(copies: seq<CardView>): (c: CardView)
    requires copies != []
    ensures c in copies
    ensures HasPhoto(c) <==> exists i :: 0 <= i < |copies| && HasPhoto(copies[i])
    ensures !HasPhoto(c) ==> c == copies[0]
  {
    var p := FirstPhoto(copies);
    if p.Some? then p.value else copies[0]
  }

  lemma {:induction false} FirstPhotoSnoc(cs: seq<CardView>, c: CardView)
    ensures FirstPhoto(cs + [c]) ==
            if FirstPhoto(cs).Some? then FirstPhoto(cs) else if HasPhoto(c) then Some(c) else None
  {
    if cs == [] {
      assert cs + [c] == [c];
    } else {
      assert (cs + [c])[0] == cs[0];
      assert (cs + [c])[1..] == cs[1..] + [c];
      if !HasPhoto(cs[0]) {
        FirstPhotoSnoc(cs[1..], c);
      }
    }
  }

  /**
   * One more copy changes the kept copy exactly when the new copy has a photo and the
   * kept one has not: the replacement rule of `dedupeById`.
   */
  lemma PreferredSnoc(cs: seq<CardView>, c: CardView)
    requires cs != []
    ensures Preferred(cs + [c]) == if HasPhoto(c) && !HasPhoto(Preferred(cs)) then c else Preferred(cs)
  {
    FirstPhotoSnoc(cs, c);
    assert (cs + [c])[0] == cs[0];
  }

  lemma CopiesOfSnoc(vs: seq<CardView>, c: CardView, k: int)
    ensures CopiesOf(vs + [c], k) == CopiesOf(vs, k) + (if c.id == k then [c] else [])
  {
    assert (vs + [c])[..|vs|] == vs;
  }

  /** A card id of `vs` has at least one copy in `vs`. */
  lemma CopiesPresent(vs: seq<CardView>, k: int)
    requires k in CardIds(vs)
    ensures CopiesOf(vs, k) != []
  {
    var j :| 0 <= j < |vs| && CardIds(vs)[j] == k;
    assert vs[j] in CopiesOf(vs, k);
  }

  /**
   * The declarative result of `dedupeById(vs)`: the distinct card ids of `vs` in the
   * order of their first occurrence, each with its preferred copy.
   */
  function Deduped(vs: seq<CardView>): (r: seq<CardView>)
    ensures CardIds(r) == Distinct(CardIds(vs))
  {
    var keys := Distinct(CardIds(vs));
    seq(|keys|, i requires 0 <= i < |keys| =>
      CopiesPresent(vs, keys[i]);
      Preferred(CopiesOf(vs, keys[i])))
  }

  /** The state of the route's Map after reading `vs`: its key order and its values. */
  ghost predicate Tracks(vs: seq<CardView>, keys: seq<int>, kept: map<int, CardView>)
  {
    && keys == Distinct(CardIds(vs))
    && (forall k :: k in kept <==> k in keys)
    && (forall k :: k in kept ==> CopiesOf(vs, k) != [] && kept[k] == Preferred(CopiesOf(vs, k)))
  }

  /** A card id that does not occur in `vs` has no copies there. */
  lemma {:induction false} CopiesAbsent(vs: seq<CardView>, k: int)
    requires k !in CardIds(vs)
    ensures CopiesOf(vs, k) == []
    decreases |vs|
  {
    if vs != [] {
      var init := vs[..|vs| - 1];
      assert CardIds(vs)[|vs| - 1] == vs[|vs| - 1].id;
      assert CardIds(init) == CardIds(vs)[..|vs| - 1];
      CopiesAbsent(init, k);
    }
  }

  /** The key order after one more element: a new card id goes to the end. */
  lemma DedupeStepKeys(vs: seq<CardView>, c: CardView, keys: seq<int>)
    requires keys == Distinct(CardIds(vs))
    ensures (if c.id in keys then keys else keys + [c.id]) == Distinct(CardIds(vs + [c]))
  {
    assert CardIds(vs + [c])[..|vs|] == CardIds(vs);
  }

  /** The kept copy of card `k` after one more element. */
  lemma DedupeStepValue(vs: seq<CardView>, c: CardView, keys: seq<int>, kept: map<int, CardView>, k: int)
    requires Tracks(vs, keys, kept)
    requires k in kept || k == c.id
    ensures var shouldReplace := c.id !in kept || (HasPhoto(c) && !HasPhoto(kept[c.id]));
            var kept' := if shouldReplace then kept[c.id := c] else kept;
            CopiesOf(vs + [c], k) != [] && kept'[k] == Preferred(CopiesOf(vs + [c], k))
  {
    CopiesOfSnoc(vs, c, k);
    if k == c.id {
      if c.id in kept {
        PreferredSnoc(CopiesOf(vs, c.id), c);
      } else {
        CopiesAbsent(vs, c.id);
        assert CopiesOf(vs + [c], k) == [c];
      }
    }
  }

  /** One iteration of the loop of `dedupeById` keeps `Tracks`. */
  lemma DedupeStep(vs: seq<CardView>, c: CardView, keys: seq<int>, kept: map<int, CardView>)
    requires Tracks(vs, keys, kept)
    ensures var shouldReplace := c.id !in kept || (HasPhoto(c) && !HasPhoto(kept[c.id]));
            Tracks(vs + [c], if c.id in kept then keys else keys + [c.id],
                   if shouldReplace then kept[c.id := c] else kept)
  {
    DedupeStepKeys(vs, c, keys);
    forall k | k in kept || k == c.id {
      DedupeStepValue(vs, c, keys, kept, k);
    }
  }

  /** `dedupeById(arr)`: walks `arr` filling a map keyed by card id, as the route's loop does. */
  method DedupeById(arr: seq<CardView>) returns (r: seq<CardView>)
    ensures r == Deduped(arr)
  {
    var keys: seq<int> := [];            // the key order of the JavaScript Map
    var kept: map<int, CardView> := map[];
    for i := 0 to |arr|
      invariant Tracks(arr[..i], keys, kept)
    {
      var c := arr[i];
      assert arr[..i + 1] == arr[..i] + [c];
      DedupeStep(arr[..i], c, keys, kept);
      var shouldReplace := c.id !in kept || (HasPhoto(c) && !HasPhoto(kept[c.id]));
      if c.id !in kept {
        keys := keys + [c.id];
      }
      if shouldReplace {
        kept := kept[c.id := c];
      }
    }
    assert arr[..|arr|] == arr;
    assert Tracks(arr, keys, kept);
    assert forall j :: 0 <= j < |keys| ==> keys[j] in keys;
    r := seq(|keys|, j requires 0 <= j < |keys| => kept[keys[j]]);
  }

  /**
   * Each card id of the input occurs exactly once in the deduplicated list, and each
   * entry is one of the input's copies of that card: the first with a photo, or else
   * the first copy.
   */
  lemma DedupedContents(vs: seq<CardView>)
    ensures NoDups(CardIds(Deduped(vs)))
    ensures forall k :: k in CardIds(Deduped(vs)) <==> k in CardIds(vs)
    ensures forall c :: c in Deduped(vs) ==> c in vs && c == Preferred(CopiesOf(vs, c.id))
  {
  }
}
