/**
 * What `GET /swipes/candidates` (backend/routes/swipes.js) answers, stated on the
 * table contents: the viewer's inputs, the rows of direction A (other users' for-trade
 * copies of cards the viewer wants) and of direction B (other users' wishes for cards
 * the viewer owns), the fill-in of every other eligible user, the deduplicated and
 * scored candidates in the key order of the route's Map, and their stable sort.
 */
module CandidateSpec {
  import opened Common
  import opened Tables
  import opened Dedupe
  import opened ScoreSort

  /** `mySwipes.map(s => s.toUserId)`: everyone the viewer has swiped, in table order. */
  function SwipedIds(swipes: seq<Swipe>, me: int): (r: seq<int>)
    ensures forall k :: k in r <==> exists s :: s in swipes && s.fromUserId == me && s.toUserId == k
  {
    if swipes == [] then []
    else
      var init := SwipedIds(swipes[..|swipes| - 1], me);
      var s := swipes[|swipes| - 1];
      assert forall x :: x in swipes <==> x in swipes[..|swipes| - 1] || x == s;
      if s.fromUserId == me then init + [s.toUserId] else init
  }

  /** The card ids of the viewer's copies, whatever their trade flag, with repetitions. */
  function CopyCardIds(userCards: seq<UserCard>, me: int): (r: seq<int>)
    ensures forall k :: k in r <==> exists uc :: uc in userCards && uc.userId == me && uc.cardId == k
  {
    if userCards == [] then []
    else
      var init := CopyCardIds(userCards[..|userCards| - 1], me);
      var uc := userCards[|userCards| - 1];
      assert forall x :: x in userCards <==> x in userCards[..|userCards| - 1] || x == uc;
      if uc.userId == me then init + [uc.cardId] else init
  }

  /** The card ids on the viewer's wishlist, with repetitions. */
  function WishCardIds(wishes: seq<WishlistEntry>, me: int): (r: seq<int>)
    ensures forall k :: k in r <==> exists w :: w in wishes && w.userId == me && w.cardId == k
  {
    if wishes == [] then []
    else
      var init := WishCardIds(wishes[..|wishes| - 1], me);
      var w := wishes[|wishes| - 1];
      assert forall x :: x in wishes <==> x in wishes[..|wishes| - 1] || x == w;
      if w.userId == me then init + [w.cardId] else init
  }

  /** `myOwnedCardIds`: each card the viewer holds a copy of, once. */
  function OwnedCardIds(userCards: seq<UserCard>, me: int): (r: seq<int>)
    ensures NoDups(r)
    ensures forall k :: k in r <==> exists uc :: uc in userCards && uc.userId == me && uc.cardId == k
    ensures r == [] <==> forall uc :: uc in userCards ==> uc.userId != me
  {
    var r := Distinct(CopyCardIds(userCards, me));
    assert r != [] ==> r[0] in r;
    assert forall uc :: uc in userCards && uc.userId == me ==> uc.cardId in r;
    r
  }

  /** `myWantedCardIds`: each card on the viewer's wishlist, once. */
  function WantedCardIds(wishes: seq<WishlistEntry>, me: int): (r: seq<int>)
    ensures NoDups(r)
    ensures forall k :: k in r <==> exists w :: w in wishes && w.userId == me && w.cardId == k
    ensures r == [] <==> forall w :: w in wishes ==> w.userId != me
  {
    var r := Distinct(WishCardIds(wishes, me));
    assert r != [] ==> r[0] in r;
    assert forall w :: w in wishes && w.userId == me ==> w.cardId in r;
    r
  }

  /**
   * The user condition of all three queries: `{ [Op.ne]: me }`, with
   * `[Op.notIn]: swipedUserIds` added when swiped users are not included.
   */
  predicate Eligible(k: int, me: int, withSwiped: bool, swiped: seq<int>)
  {
    k != me && (withSwiped || k !in swiped)
  }

  /** A row of direction A or B as the loop reads it: its user id and its card, if the join found one. */
  datatype Hit = Hit(userId: int, view: Option<CardView>)

  /** `asPlainCard(r, { photoUrl: r.photoUrl, userCardId: r.id })` for a copy row. */
  function CopyView(cards: seq<Card>, uc: UserCard): (r: Option<CardView>)
    ensures r.None? <==> FindCard(cards, uc.cardId).None?
    ensures r.Some? ==> Card(r.value.id, r.value.name, r.value.setName, r.value.rarity) in cards
                        && r.value.id == uc.cardId
                        && r.value.photoUrl == uc.photoUrl && r.value.userCardId == Some(uc.id)
  {
    match FindCard(cards, uc.cardId)
    case None => None
    case Some(c) => Some(CardView(c.id, c.name, c.setName, c.rarity, uc.photoUrl, Some(uc.id)))
  }

  /** `asPlainCard(r)` for a wishlist row: the card's own columns, so no photo and no copy id. */
  function WishView(cards: seq<Card>, w: WishlistEntry): (r: Option<CardView>)
    ensures r.None? <==> FindCard(cards, w.cardId).None?
    ensures r.Some? ==> Card(r.value.id, r.value.name, r.value.setName, r.value.rarity) in cards
                        && r.value.id == w.cardId
                        && r.value.photoUrl.None? && r.value.userCardId.None?
  {
    match FindCard(cards, w.cardId)
    case None => None
    case Some(c) => Some(CardView(c.id, c.name, c.setName, c.rarity, None, None))
  }

  /**
   * Direction A before its `limit: 200`: the for-trade copies of wanted cards held by
   * eligible users, in table order.
   */
  function HaveRows(cards: seq<Card>, userCards: seq<UserCard>, wanted: seq<int>,
                    me: int, withSwiped: bool, swiped: seq<int>): (r: seq<Hit>)
    ensures forall h :: h in r ==>
              exists uc :: uc in userCards && uc.cardId in wanted && uc.isForTrade
                           && Eligible(uc.userId, me, withSwiped, swiped)
                           && h == Hit(uc.userId, CopyView(cards, uc))
    ensures wanted == [] ==> r == []
  {
    if userCards == [] then []
    else
      var init := HaveRows(cards, userCards[..|userCards| - 1], wanted, me, withSwiped, swiped);
      var uc := userCards[|userCards| - 1];
      assert forall x :: x in userCards[..|userCards| - 1] ==> x in userCards;
      if uc.cardId in wanted && uc.isForTrade && Eligible(uc.userId, me, withSwiped, swiped)
      then init + [Hit(uc.userId, CopyView(cards, uc))]
      else init
  }

  /**
   * Direction B before its `limit: 200`: the wishlist rows of eligible users for cards
   * the viewer owns, in table order.
   */
  function NeedRows(cards: seq<Card>, wishes: seq<WishlistEntry>, owned: seq<int>,
                    me: int, withSwiped: bool, swiped: seq<int>): (r: seq<Hit>)
    ensures forall h :: h in r ==>
              exists w :: w in wishes && w.cardId in owned
                          && Eligible(w.userId, me, withSwiped, swiped)
                          && h == Hit(w.userId, WishView(cards, w))
    ensures owned == [] ==> r == []
  {
    if wishes == [] then []
    else
      var init := NeedRows(cards, wishes[..|wishes| - 1], owned, me, withSwiped, swiped);
      var w := wishes[|wishes| - 1];
      assert forall x :: x in wishes[..|wishes| - 1] ==> x in wishes;
      if w.cardId in owned && Eligible(w.userId, me, withSwiped, swiped)
      then init + [Hit(w.userId, WishView(cards, w))]
      else init
  }

  /** The row cap of both direction queries. */
  const RowLimit: nat := 200

  /** `allUsers`: every eligible user, in table order. */
  function EligibleUsers(users: seq<User>, me: int, withSwiped: bool, swiped: seq<int>): (r: seq<User>)
    ensures forall u :: u in r <==> u in users && Eligible(u.id, me, withSwiped, swiped)
    ensures UniqueUserIds(users) ==> UniqueUserIds(r)
  {
    if users == [] then []
    else
      var init := EligibleUsers(users[..|users| - 1], me, withSwiped, swiped);
      var u := users[|users| - 1];
      assert forall x :: x in users <==> x in users[..|users| - 1] || x == u;
      if Eligible(u.id, me, withSwiped, swiped) then init + [u] else init
  }

  /** The ids of a list of users. */
  function UserIds(us: seq<User>): (r: seq<int>)
    ensures |r| == |us| && forall i :: 0 <= i < |us| ==> r[i] == us[i].id
  {
    seq(|us|, i requires 0 <= i < |us| => us[i].id)
  }

  /** The user ids of the rows whose user the `userMap` knows, in row order, with repetitions. */
  function Found(hits: seq<Hit>, users: seq<User>): (r: seq<int>)
    ensures forall k :: k in r <==> (exists h :: h in hits && h.userId == k) && FindUser(users, k).Some?
  {
    if hits == [] then []
    else
      var init := Found(hits[..|hits| - 1], users);
      var h := hits[|hits| - 1];
      assert forall x :: x in hits <==> x in hits[..|hits| - 1] || x == h;
      if FindUser(users, h.userId).Some? then init + [h.userId] else init
  }

  /** The cards the rows give user `k`, in row order: what the loop pushes onto that user's list. */
  function ViewsFor(hits: seq<Hit>, k: int): (r: seq<CardView>)
    ensures forall v :: v in r ==> Hit(k, Some(v)) in hits
  {
    if hits == [] then []
    else
      var init := ViewsFor(hits[..|hits| - 1], k);
      var h := hits[|hits| - 1];
      assert forall x :: x in hits[..|hits| - 1] ==> x in hits;
      if h.userId == k && h.view.Some? then init + [h.view.value] else init
  }

  /** The value the route's Map holds for one user: the user and its two card lists. */
  datatype Entry = Entry(user: UserBrief, have: seq<CardView>, need: seq<CardView>)

  /** The key order of `candidatesMap`: users found in direction A, then in B, then the fill-in. */
  function Order(users: seq<User>, have: seq<Hit>, need: seq<Hit>, fill: seq<int>): seq<int>
  {
    Distinct(Found(have, users) + Found(need, users) + fill)
  }

  /** The entry of user `k` once every row has been read. */
  function EntryFor(users: seq<User>, have: seq<Hit>, need: seq<Hit>, k: int): Entry
    requires FindUser(users, k).Some?
  {
    Entry(Brief(FindUser(users, k).value), ViewsFor(have, k), ViewsFor(need, k))
  }

  /** An entry after the `.map` of the route: both lists deduplicated, then scored. */
  function Scored(e: Entry): Candidate
  {
    var have, need := Deduped(e.have), Deduped(e.need);
    Candidate(e.user, have, need, |have| * 2 + |need|)
  }

  /** The user ids of a candidate list. */
  function CandidateIds(cs: seq<Candidate>): (r: seq<int>)
    ensures |r| == |cs| && forall i :: 0 <= i < |cs| ==> r[i] == cs[i].user.id
  {
    seq(|cs|, i requires 0 <= i < |cs| => cs[i].user.id)
  }

  /** Every key of the Map names a known user. */
  lemma OrderKnown(users: seq<User>, have: seq<Hit>, need: seq<Hit>, fill: seq<int>)
    requires forall j :: j in fill ==> FindUser(users, j).Some?
    ensures forall k :: k in Order(users, have, need, fill) ==> FindUser(users, k).Some?
  {
  }

  /** `[...candidatesMap.values()]` after the `.map`: one scored candidate per key, in key order. */
  function Assemble(users: seq<User>, have: seq<Hit>, need: seq<Hit>, fill: seq<int>): (r: seq<Candidate>)
    requires forall j :: j in fill ==> FindUser(users, j).Some?
    ensures |r| == |Order(users, have, need, fill)|
    ensures forall i :: 0 <= i < |r| ==> r[i].user.id == Order(users, have, need, fill)[i]
  {
    var order := Order(users, have, need, fill);
    OrderKnown(users, have, need, fill);
    seq(|order|, i requires 0 <= i < |order| => CandidateOf(users, have, need, order, i))
  }

  /** The candidate at position `i` of the Map. */
  function CandidateOf(users: seq<User>, have: seq<Hit>, need: seq<Hit>, order: seq<int>, i: nat): (c: Candidate)
    requires forall j :: j in order ==> FindUser(users, j).Some?
    requires i < |order|
    ensures c.user.id == order[i]
  {
    Scored(EntryFor(users, have, need, order[i]))
  }

  /** The rows of direction A after `limit: 200`. */
  function RowsA(cards: seq<Card>, userCards: seq<UserCard>, wishes: seq<WishlistEntry>,
                 swipes: seq<Swipe>, me: int, withSwiped: bool): seq<Hit>
  {
    Take(HaveRows(cards, userCards, WantedCardIds(wishes, me), me, withSwiped, SwipedIds(swipes, me)), RowLimit)
  }

  /** The rows of direction B after `limit: 200`. */
  function RowsB(cards: seq<Card>, userCards: seq<UserCard>, wishes: seq<WishlistEntry>,
                 swipes: seq<Swipe>, me: int, withSwiped: bool): seq<Hit>
  {
    Take(NeedRows(cards, wishes, OwnedCardIds(userCards, me), me, withSwiped, SwipedIds(swipes, me)), RowLimit)
  }

  /** The ids of the fill-in pass. */
  function FillIds(users: seq<User>, swipes: seq<Swipe>, me: int, withSwiped: bool): (r: seq<int>)
    ensures forall j :: j in r ==> FindUser(users, j).Some?
  {
    var us := EligibleUsers(users, me, withSwiped, SwipedIds(swipes, me));
    var r := UserIds(us);
    assert forall j :: j in r ==> exists u :: u in users && u.id == j by {
      forall j | j in r ensures exists u :: u in users && u.id == j {
        var i :| 0 <= i < |r| && r[i] == j;
        assert us[i] in users;
      }
    }
    r
  }

  /** The candidates in Map order, before the sort. */
  function Unranked(users: seq<User>, cards: seq<Card>, userCards: seq<UserCard>,
                    wishes: seq<WishlistEntry>, swipes: seq<Swipe>, me: int, withSwiped: bool): seq<Candidate>
  {
    Assemble(users, RowsA(cards, userCards, wishes, swipes, me, withSwiped),
             RowsB(cards, userCards, wishes, swipes, me, withSwiped),
             FillIds(users, swipes, me, withSwiped))
  }

  /** The candidates after `candidates.sort((a, b) => b.score - a.score)`. */
  function Ranked(users: seq<User>, cards: seq<Card>, userCards: seq<UserCard>,
                  wishes: seq<WishlistEntry>, swipes: seq<Swipe>, me: int, withSwiped: bool): seq<Candidate>
  {
    SortByScore(Unranked(users, cards, userCards, wishes, swipes, me, withSwiped))
  }

  /** The JSON body `{ candidates: paged, total, offset }`. */
  datatype CandidatePage = CandidatePage(candidates: seq<Candidate>, total: int, offset: JsNum)
}
