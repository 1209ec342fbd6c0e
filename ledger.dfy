/**
 * The swipe ledger and the matches table as `POST /swipes/like` and `POST /swipes/dislike`
 * (backend/routes/swipes.js) read and keep them: one swipe per ordered pair of users
 * (the unique index of backend/models/Swipe.js), one match per pair stored as
 * `(min, max)` (the unique index of backend/models/Match.js).
 */
module Ledger {
  import opened Common
  import opened Tables

  /** `Swipe.findOne({ where: { fromUserId, toUserId } })`: the first swipe of that pair, of either type. */
  function FindSwipe(swipes: seq<Swipe>, from: int, to: int): (r: Option<Swipe>)
    ensures r.Some? ==> r.value in swipes && r.value.fromUserId == from && r.value.toUserId == to
    ensures r.None? <==> forall s :: s in swipes ==> !(s.fromUserId == from && s.toUserId == to)
  {
    if swipes == [] then None
    else if swipes[0].fromUserId == from && swipes[0].toUserId == to then Some(swipes[0])
    else
      var r := FindSwipe(swipes[1..], from, to);
      assert forall s :: s in swipes ==> s == swipes[0] || s in swipes[1..];
      r
  }

  /** `Swipe.findOne({ where: { fromUserId, toUserId, type: "like" } })`. */
  function FindLike(swipes: seq<Swipe>, from: int, to: int): (r: Option<Swipe>)
    ensures r.Some? ==> r.value in swipes && r.value.fromUserId == from && r.value.toUserId == to && r.value.kind == Like
    ensures r.None? <==> forall s :: s in swipes ==> !(s.fromUserId == from && s.toUserId == to && s.kind == Like)
  {
    if swipes == [] then None
    else if swipes[0].fromUserId == from && swipes[0].toUserId == to && swipes[0].kind == Like then Some(swipes[0])
    else
      var r := FindLike(swipes[1..], from, to);
      assert forall s :: s in swipes ==> s == swipes[0] || s in swipes[1..];
      r
  }

  /** `Match.findOne({ where: { user1Id, user2Id } })`. */
  function FindMatchPair(matches: seq<Match>, user1Id: int, user2Id: int): (r: Option<Match>)
    ensures r.Some? ==> r.value in matches && r.value.user1Id == user1Id && r.value.user2Id == user2Id
    ensures r.None? <==> forall m :: m in matches ==> !(m.user1Id == user1Id && m.user2Id == user2Id)
  {
    if matches == [] then None
    else if matches[0].user1Id == user1Id && matches[0].user2Id == user2Id then Some(matches[0])
    else
      var r := FindMatchPair(matches[1..], user1Id, user2Id);
      assert forall m :: m in matches ==> m == matches[0] || m in matches[1..];
      r
  }

  /** User `from` has liked user `to`. */
  predicate HasLiked(swipes: seq<Swipe>, from: int, to: int)
  {
    FindLike(swipes, from, to).Some?
  }

  /** The unique index on `(fromUserId, toUserId)`, and no user ever swipes themself. */
  ghost predicate WriteOnce(swipes: seq<Swipe>)
  {
    && (forall i, j :: 0 <= i < j < |swipes| ==>
          !(swipes[i].fromUserId == swipes[j].fromUserId && swipes[i].toUserId == swipes[j].toUserId))
    && (forall s :: s in swipes ==> s.fromUserId != s.toUserId)
  }

  /** Every match is stored as `(min, max)` of two different users, and no pair is stored twice. */
  ghost predicate Normalised(matches: seq<Match>)
  {
    && (forall m :: m in matches ==> m.user1Id < m.user2Id)
    && (forall i, j :: 0 <= i < j < |matches| ==>
          !(matches[i].user1Id == matches[j].user1Id && matches[i].user2Id == matches[j].user2Id))
  }

  /** Every match is backed by a like in each direction. */
  ghost predicate Backed(swipes: seq<Swipe>, matches: seq<Match>)
  {
    forall m :: m in matches ==> HasLiked(swipes, m.user1Id, m.user2Id) && HasLiked(swipes, m.user2Id, m.user1Id)
  }

  /** Every pair of mutual likes has its match `(min, max)`. */
  ghost predicate Complete(swipes: seq<Swipe>, matches: seq<Match>)
  {
    forall s, t :: s in swipes && t in swipes && s.kind == Like && t.kind == Like
                   && s.fromUserId == t.toUserId && s.toUserId == t.fromUserId ==>
      FindMatchPair(matches, Min(s.fromUserId, s.toUserId), Max(s.fromUserId, s.toUserId)).Some?
  }

  /** Matches and mutual likes agree. */
  ghost predicate Reciprocal(swipes: seq<Swipe>, matches: seq<Match>)
  {
    Backed(swipes, matches) && Complete(swipes, matches)
  }

  /** Under the unique index, a user who disliked someone has not liked them. */
  lemma DislikeExcludesLike(swipes: seq<Swipe>, d: Swipe)
    requires WriteOnce(swipes)
    requires d in swipes && d.kind == Dislike
    ensures !HasLiked(swipes, d.fromUserId, d.toUserId)
  {
    forall s | s in swipes && s.fromUserId == d.fromUserId && s.toUserId == d.toUserId
      ensures s == d
    {
      var i :| 0 <= i < |swipes| && swipes[i] == d;
      var j :| 0 <= j < |swipes| && swipes[j] == s;
      assert i == j;
    }
  }

  /** Two users have at most one match between them. */
  lemma OneMatchPerPair(matches: seq<Match>, m1: Match, m2: Match, a: int, b: int)
    requires Normalised(matches)
    requires m1 in matches && m2 in matches && a != b
    requires InMatch(m1, a) && InMatch(m1, b) && InMatch(m2, a) && InMatch(m2, b)
    ensures m1 == m2
  {
    var i :| 0 <= i < |matches| && matches[i] == m1;
    var j :| 0 <= j < |matches| && matches[j] == m2;
    assert m1.user1Id == m2.user1Id && m1.user2Id == m2.user2Id;
    assert i == j;
  }

  /**
   * The matches table after the like `me -> t` has been recorded (lines 218-237): when `t`
   * already likes `me` and the pair `(min, max)` has no match yet, a new match with id
   * `newId` is appended; otherwise nothing changes.
   */
  function MatchesAfterLike(swipes: seq<Swipe>, matches: seq<Match>, me: int, t: int, newId: int, now: nat): (r: seq<Match>)
    ensures r == matches || r == matches + [Match(newId, Min(me, t), Max(me, t), now)]
    ensures r != matches <==> HasLiked(swipes, t, me) && FindMatchPair(matches, Min(me, t), Max(me, t)).None?
  {
    if HasLiked(swipes, t, me) && FindMatchPair(matches, Min(me, t), Max(me, t)).None?
    then matches + [Match(newId, Min(me, t), Max(me, t), now)]
    else matches
  }

  /**
   * The match the like reply names: none unless `t` likes `me`, and otherwise the pair's
   * match, found or just created.
   */
  function MatchOfLike(swipes: seq<Swipe>, matches: seq<Match>, me: int, t: int, newId: int, now: nat): (r: Option<Match>)
    ensures r.Some? <==> HasLiked(swipes, t, me)
    ensures r.Some? ==> r.value in MatchesAfterLike(swipes, matches, me, t, newId, now)
                        && r.value.user1Id == Min(me, t) && r.value.user2Id == Max(me, t)
    ensures r.Some? && me != t ==> r.value.user1Id < r.value.user2Id
    ensures r.Some? && FindMatchPair(matches, Min(me, t), Max(me, t)).Some? ==> r == FindMatchPair(matches, Min(me, t), Max(me, t))
  {
    if !HasLiked(swipes, t, me) then None
    else
      match FindMatchPair(matches, Min(me, t), Max(me, t))
      case Some(m) => Some(m)
      case None => Some(Match(newId, Min(me, t), Max(me, t), now))
  }

  /** The caller's own new swipe `me -> t` does not change whether `t` likes `me`, as `t != me`. */
  lemma OwnSwipeLeavesReverseLike(swipes: seq<Swipe>, s: Swipe)
    requires s.fromUserId != s.toUserId
    ensures HasLiked(swipes + [s], s.toUserId, s.fromUserId) == HasLiked(swipes, s.toUserId, s.fromUserId)
  {
    assert forall x :: x in swipes + [s] <==> x in swipes || x == s;
  }

  /** A like stays on the ledger when more swipes are recorded. */
  lemma LikedStaysLiked(swipes: seq<Swipe>, s: Swipe, from: int, to: int)
    requires HasLiked(swipes, from, to)
    ensures HasLiked(swipes + [s], from, to)
  {
    var l := FindLike(swipes, from, to).value;
    assert l in swipes + [s];
  }

  /** A match stays found in any table that keeps every match. */
  lemma MatchStays(matches: seq<Match>, ms: seq<Match>, user1Id: int, user2Id: int)
    requires FindMatchPair(matches, user1Id, user2Id).Some?
    requires forall m :: m in matches ==> m in ms
    ensures FindMatchPair(ms, user1Id, user2Id).Some?
  {
    var m := FindMatchPair(matches, user1Id, user2Id).value;
    assert m in ms;
  }

  /** Recording a swipe for a pair that has none keeps the ledger write-once. */
  lemma RecordKeepsWriteOnce(swipes: seq<Swipe>, s: Swipe)
    requires WriteOnce(swipes)
    requires FindSwipe(swipes, s.fromUserId, s.toUserId).None?
    requires s.fromUserId != s.toUserId
    ensures WriteOnce(swipes + [s])
  {
    var t := swipes + [s];
    forall i, j | 0 <= i < j < |t|
      ensures !(t[i].fromUserId == t[j].fromUserId && t[i].toUserId == t[j].toUserId)
    {
      if j == |swipes| {
        assert t[i] in swipes;
      } else {
        assert t[i] == swipes[i] && t[j] == swipes[j];
      }
    }
  }

  /** A like between two different users keeps the matches table normalised. */
  lemma LikeKeepsNormalised(swipes: seq<Swipe>, matches: seq<Match>, me: int, t: int, newId: int, now: nat)
    requires Normalised(matches)
    requires me != t
    ensures Normalised(MatchesAfterLike(swipes, matches, me, t, newId, now))
  {
    var r := MatchesAfterLike(swipes, matches, me, t, newId, now);
    if r != matches {
      forall i, j | 0 <= i < j < |r|
        ensures !(r[i].user1Id == r[j].user1Id && r[i].user2Id == r[j].user2Id)
      {
        if j == |matches| {
          assert r[i] in matches;
        } else {
          assert r[i] == matches[i] && r[j] == matches[j];
        }
      }
    }
  }

  /** After a like, every match, old or new, is backed by both likes. */
  lemma LikeKeepsBacked(swipes: seq<Swipe>, matches: seq<Match>, s: Swipe, newId: int, now: nat)
    requires Backed(swipes, matches)
    requires s.kind == Like
    ensures Backed(swipes + [s], MatchesAfterLike(swipes + [s], matches, s.fromUserId, s.toUserId, newId, now))
  {
    var sw := swipes + [s];
    var me, t := s.fromUserId, s.toUserId;
    var ms := MatchesAfterLike(sw, matches, me, t, newId, now);
    assert HasLiked(sw, me, t) by { assert s in sw; }
    forall m | m in ms
      ensures HasLiked(sw, m.user1Id, m.user2Id) && HasLiked(sw, m.user2Id, m.user1Id)
    {
      if m in matches {
        LikedStaysLiked(swipes, s, m.user1Id, m.user2Id);
        LikedStaysLiked(swipes, s, m.user2Id, m.user1Id);
      }
    }
  }

  /** After a like, every pair of mutual likes, old or just completed, has its match. */
  lemma LikeKeepsComplete(swipes: seq<Swipe>, matches: seq<Match>, s: Swipe, newId: int, now: nat)
    requires Complete(swipes, matches)
    requires s.kind == Like
    ensures Complete(swipes + [s], MatchesAfterLike(swipes + [s], matches, s.fromUserId, s.toUserId, newId, now))
  {
    var sw := swipes + [s];
    var me, t := s.fromUserId, s.toUserId;
    var ms := MatchesAfterLike(sw, matches, me, t, newId, now);
    assert forall m :: m in matches ==> m in ms;
    forall a, b | a in sw && b in sw && a.kind == Like && b.kind == Like
                  && a.fromUserId == b.toUserId && a.toUserId == b.fromUserId
      ensures FindMatchPair(ms, Min(a.fromUserId, a.toUserId), Max(a.fromUserId, a.toUserId)).Some?
    {
      if a in swipes && b in swipes {
        MatchStays(matches, ms, Min(a.fromUserId, a.toUserId), Max(a.fromUserId, a.toUserId));
      } else {
        MutualWithNewLike(sw, matches, s, a, b, newId, now);
      }
    }
  }

  /** A mutual pair that involves the new like `s` has its match after `s`. */
  lemma MutualWithNewLike(sw: seq<Swipe>, matches: seq<Match>, s: Swipe, a: Swipe, b: Swipe, newId: int, now: nat)
    requires s in sw && a in sw && b in sw && a.kind == Like && b.kind == Like
    requires a.fromUserId == b.toUserId && a.toUserId == b.fromUserId
    requires a == s || b == s
    ensures FindMatchPair(MatchesAfterLike(sw, matches, s.fromUserId, s.toUserId, newId, now),
                          Min(a.fromUserId, a.toUserId), Max(a.fromUserId, a.toUserId)).Some?
  {
    var me, t := s.fromUserId, s.toUserId;
    var ms := MatchesAfterLike(sw, matches, me, t, newId, now);
    var other := if a == s then b else a;
    assert other.fromUserId == t && other.toUserId == me && other.kind == Like;
    assert HasLiked(sw, t, me);
    assert Min(a.fromUserId, a.toUserId) == Min(me, t) && Max(a.fromUserId, a.toUserId) == Max(me, t);
    if FindMatchPair(matches, Min(me, t), Max(me, t)).Some? {
      assert forall m :: m in matches ==> m in ms;
      MatchStays(matches, ms, Min(me, t), Max(me, t));
    } else {
      assert ms[|ms| - 1] in ms;
    }
  }

  /** A like keeps matches and mutual likes in agreement. */
  lemma LikeKeepsReciprocal(swipes: seq<Swipe>, matches: seq<Match>, s: Swipe, newId: int, now: nat)
    requires Reciprocal(swipes, matches)
    requires s.kind == Like
    ensures Reciprocal(swipes + [s], MatchesAfterLike(swipes + [s], matches, s.fromUserId, s.toUserId, newId, now))
  {
    LikeKeepsBacked(swipes, matches, s, newId, now);
    LikeKeepsComplete(swipes, matches, s, newId, now);
  }

  /** A dislike leaves the matches table alone and keeps it in agreement with the ledger. */
  lemma DislikeKeepsReciprocal(swipes: seq<Swipe>, matches: seq<Match>, s: Swipe)
    requires Reciprocal(swipes, matches)
    requires s.kind == Dislike
    ensures Reciprocal(swipes + [s], matches)
  {
    var sw := swipes + [s];
    forall m | m in matches
      ensures HasLiked(sw, m.user1Id, m.user2Id) && HasLiked(sw, m.user2Id, m.user1Id)
    {
      LikedStaysLiked(swipes, s, m.user1Id, m.user2Id);
      LikedStaysLiked(swipes, s, m.user2Id, m.user1Id);
    }
    assert forall x :: x in sw && x.kind == Like ==> x in swipes;
  }

  /** Two users one of whom disliked the other never have a match, as long as matches and likes agree. */
  lemma DislikedPairNeverMatches(swipes: seq<Swipe>, matches: seq<Match>, d: Swipe)
    requires WriteOnce(swipes) && Reciprocal(swipes, matches)
    requires d in swipes && d.kind == Dislike
    ensures forall m :: m in matches ==> !(InMatch(m, d.fromUserId) && InMatch(m, d.toUserId))
  {
    DislikeExcludesLike(swipes, d);
    assert d.fromUserId != d.toUserId;
    forall m | m in matches
      ensures !(InMatch(m, d.fromUserId) && InMatch(m, d.toUserId))
    {
      NotBothParticipants(swipes, m, d.fromUserId, d.toUserId);
    }
  }

  /** A match backed by likes in both directions cannot join two users where one has not liked the other. */
  lemma NotBothParticipants(swipes: seq<Swipe>, m: Match, a: int, b: int)
    requires HasLiked(swipes, m.user1Id, m.user2Id) && HasLiked(swipes, m.user2Id, m.user1Id)
    requires !HasLiked(swipes, a, b) && a != b
    ensures !(InMatch(m, a) && InMatch(m, b))
  {
  }
}
