/**
 * The database behind the routes as one store: the seven tables in insertion order, a
 * counter handing out row ids and a clock handing out `createdAt` values. Each
 * state-changing route handler is a method that answers with a status and keeps the
 * store's invariant: ids and times grow along every table, the swipe ledger is
 * write-once, matches are normalised and unique per pair, a user has a card on the
 * wishlist at most once, every copy and wishlist entry names a catalogue card, and every
 * message goes between two participants of its match.
 */
module Backend {
  import opened Common
  import opened Tables
  import opened Ledger
  import opened Inventory
  import MessageRoutes
  import MatchRoutes
  import Paging
  import CandidateSpec
  import Ranking

  /** The match in the reply of `POST /swipes/like`: `{ id, user1Id, user2Id }`. */
  datatype MatchRef = MatchRef(id: int, user1Id: int, user2Id: int)

  /** `{ liked: true, match }` and `{ disliked: true }`. */
  datatype SwipeAck = Liked(matched: Option<MatchRef>) | Disliked

  function RefOf(m: Option<Match>): Option<MatchRef>
  {
    match m
    case None => None
    case Some(x) => Some(MatchRef(x.id, x.user1Id, x.user2Id))
  }

  /**
   * `!toUserId || Number(toUserId) === Number(fromUserId)` (swipes.js:205, 259): a missing
   * target, the falsy id 0, or the caller themself.
   */
  predicate BadTarget(me: int, toUserId: Option<int>)
  {
    toUserId.None? || toUserId.value == 0 || toUserId.value == me
  }

  /** `key` grows strictly along `rows` and stays below `bound`, the next value to hand out. */
  ghost predicate Keyed<T>(rows: seq<T>, key: T -> int, bound: int)
  {
    IncreasingBy(rows, key) && forall i :: 0 <= i < |rows| ==> key(rows[i]) < bound
  }

  /** No user has the same card twice on the wishlist. */
  ghost predicate OneWishPerCard(wishes: seq<WishlistEntry>)
  {
    forall i, j :: 0 <= i < j < |wishes| ==>
      !(wishes[i].userId == wishes[j].userId && wishes[i].cardId == wishes[j].cardId)
  }

  /** Every copy and every wishlist entry names a card of the catalogue. */
  ghost predicate CardsKnown(cards: seq<Card>, userCards: seq<UserCard>, wishes: seq<WishlistEntry>)
  {
    && (forall c :: c in userCards ==> FindCard(cards, c.cardId).Some?)
    && (forall w :: w in wishes ==> FindCard(cards, w.cardId).Some?)
  }

  /** Every message belongs to a match that both its sender and its receiver take part in. */
  ghost predicate MessagesBelong(matches: seq<Match>, messages: seq<Message>)
  {
    forall x :: x in messages ==>
      && MessageRoutes.MemberMatch(matches, x.matchId, x.fromUserId).Some?
      && MessageRoutes.MemberMatch(matches, x.matchId, x.toUserId).Some?
  }

  /** A larger bound keeps a table keyed. */
  lemma KeyedRaise<T>(rows: seq<T>, key: T -> int, bound: int, bound': int)
    requires Keyed(rows, key, bound) && bound <= bound'
    ensures Keyed(rows, key, bound')
  {
  }

  /** A row with the next key keeps the table keyed, with the bound moved past it. */
  lemma KeyedSnoc<T>(rows: seq<T>, key: T -> int, bound: int, x: T, bound': int)
    requires Keyed(rows, key, bound)
    requires bound <= key(x) < bound'
    ensures Keyed(rows + [x], key, bound')
  {
    var r := rows + [x];
    forall i | 0 <= i < |r| ensures key(r[i]) < bound' && (i < |rows| ==> r[i] == rows[i]) {
    }
  }

  /** Removing the row at `i` keeps a table keyed. */
  lemma KeyedRemove<T>(rows: seq<T>, key: T -> int, bound: int, i: nat)
    requires Keyed(rows, key, bound) && i < |rows|
    ensures Keyed(rows[..i] + rows[i + 1..], key, bound)
  {
    var r := rows[..i] + rows[i + 1..];
    forall a | 0 <= a < |r| ensures r[a] == rows[if a < i then a else a + 1] {
    }
  }

  /** Replacing the row at `i` by one with the same key keeps a table keyed. */
  lemma KeyedReplace<T>(rows: seq<T>, key: T -> int, bound: int, i: nat, x: T)
    requires Keyed(rows, key, bound) && i < |rows| && key(x) == key(rows[i])
    ensures Keyed(rows[i := x], key, bound)
  {
  }

  /** In a keyed table, the row at `i` is the only one with its key. */
  lemma KeyedUnique<T>(rows: seq<T>, key: T -> int, bound: int, i: nat)
    requires Keyed(rows, key, bound) && i < |rows|
    ensures forall j :: 0 <= j < |rows| && key(rows[j]) == key(rows[i]) ==> j == i
  {
  }

  /** A catalogue card stays found when more cards are appended. */
  lemma CardStays(cards: seq<Card>, more: seq<Card>, id: int)
    requires FindCard(cards, id).Some?
    ensures FindCard(cards + more, id).Some?
  {
    var c := FindCard(cards, id).value;
    var i :| 0 <= i < |cards| && cards[i] == c;
    assert (cards + more)[i] == c;
  }

  /** A catalogue card that is present is found. */
  lemma CardFound(cards: seq<Card>, c: Card)
    requires c in cards
    ensures FindCard(cards, c.id).Some?
  {
    var i :| 0 <= i < |cards| && cards[i] == c;
  }

  /** A member match stays found when more matches are appended. */
  lemma MemberStays(matches: seq<Match>, more: seq<Match>, matchId: int, u: int)
    requires MessageRoutes.MemberMatch(matches, matchId, u).Some?
    ensures MessageRoutes.MemberMatch(matches + more, matchId, u).Some?
  {
    var m := MessageRoutes.MemberMatch(matches, matchId, u).value;
    assert m in matches + more;
  }

  /** More matches keep every message attached to a match of its sender. */
  lemma BelongAfterNewMatches(matches: seq<Match>, more: seq<Match>, messages: seq<Message>)
    requires MessagesBelong(matches, messages)
    ensures MessagesBelong(matches + more, messages)
  {
    forall x | x in messages
      ensures MessageRoutes.MemberMatch(matches + more, x.matchId, x.fromUserId).Some?
      ensures MessageRoutes.MemberMatch(matches + more, x.matchId, x.toUserId).Some?
    {
      MemberStays(matches, more, x.matchId, x.fromUserId);
      MemberStays(matches, more, x.matchId, x.toUserId);
    }
  }

  /**
   * The database: the seven tables in insertion order, the counter that hands out row ids
   * (one counter for all tables) and the clock that hands out `createdAt` values.
   */
  datatype Db = Db(users: seq<User>, cards: seq<Card>, userCards: seq<UserCard>, wishes: seq<WishlistEntry>,
                   swipes: seq<Swipe>, matches: seq<Match>, messages: seq<Message>, nextId: int, clock: nat)

  /** Row ids grow along every table and stay below the counter. */
  ghost predicate Numbered(d: Db)
  {
    && Keyed(d.cards, CardKey, d.nextId)
    && Keyed(d.userCards, CopyKey, d.nextId)
    && Keyed(d.wishes, WishKey, d.nextId)
    && Keyed(d.swipes, SwipeKey, d.nextId)
    && Keyed(d.matches, MatchKey, d.nextId)
    && Keyed(d.messages, MessageKey, d.nextId)
  }

  /** `createdAt` grows along every timestamped table and stays below the clock. */
  ghost predicate Timed(d: Db)
  {
    && Keyed(d.userCards, CopyCreated, d.clock)
    && Keyed(d.wishes, WishCreated, d.clock)
    && Keyed(d.matches, MatchCreated, d.clock)
    && Keyed(d.messages, MessageCreated, d.clock)
  }

  /** The rules the routes keep between the tables. */
  ghost predicate Rules(d: Db)
  {
    && WriteOnce(d.swipes)
    && Normalised(d.matches)
    && OneWishPerCard(d.wishes)
    && CardsKnown(d.cards, d.userCards, d.wishes)
    && MessagesBelong(d.matches, d.messages)
  }

  /** The invariant every route keeps. */
  ghost predicate Inv(d: Db)
  {
    UniqueUserIds(d.users) && Numbered(d) && Timed(d) && Rules(d)
  }

  /** A database that keeps the invariant. */
  type Database = d: Db | Inv(d) witness Db([], [], [], [], [], [], [], 1, 0)

  /**
   * The order the read routes rely on: in a database that keeps the invariant, `createdAt`
   * grows along the copies, wishlist entries, matches and messages, so that the ascending
   * and descending `createdAt` orders are the table order and its reverse.
   */
  lemma InvOrdersTables(d: Database)
    ensures IncreasingBy(d.userCards, CopyCreated) && IncreasingBy(d.wishes, WishCreated)
    ensures IncreasingBy(d.matches, MatchCreated) && IncreasingBy(d.messages, MessageCreated)
  {
  }

  /** A larger counter and a later clock keep the ids and times below them. */
  lemma Advance(d: Db, nextId': int, clock': nat)
    requires Numbered(d) && Timed(d) && d.nextId <= nextId' && d.clock <= clock'
    ensures Numbered(d.(nextId := nextId', clock := clock')) && Timed(d.(nextId := nextId', clock := clock'))
  {
    KeyedRaise(d.cards, CardKey, d.nextId, nextId');
    KeyedRaise(d.userCards, CopyKey, d.nextId, nextId');
    KeyedRaise(d.wishes, WishKey, d.nextId, nextId');
    KeyedRaise(d.swipes, SwipeKey, d.nextId, nextId');
    KeyedRaise(d.matches, MatchKey, d.nextId, nextId');
    KeyedRaise(d.messages, MessageKey, d.nextId, nextId');
    KeyedRaise(d.userCards, CopyCreated, d.clock, clock');
    KeyedRaise(d.wishes, WishCreated, d.clock, clock');
    KeyedRaise(d.matches, MatchCreated, d.clock, clock');
    KeyedRaise(d.messages, MessageCreated, d.clock, clock');
  }

  /** A swipe between two users for a pair the ledger has no swipe of keeps the invariant. */
  lemma SwipeStep(d: Database, s: Swipe)
    requires s.id == d.nextId && s.fromUserId != s.toUserId && FindSwipe(d.swipes, s.fromUserId, s.toUserId).None?
    ensures Inv(d.(swipes := d.swipes + [s], nextId := d.nextId + 1))
  {
    Advance(d, d.nextId + 1, d.clock);
    KeyedSnoc(d.swipes, SwipeKey, d.nextId, s, d.nextId + 1);
    RecordKeepsWriteOnce(d.swipes, s);
  }

  /** The match a like may create, with the next id and time, keeps the invariant. */
  lemma MatchStep(d: Database, me: int, t: int)
    requires me != t
    ensures Inv(d.(matches := MatchesAfterLike(d.swipes, d.matches, me, t, d.nextId, d.clock),
                   nextId := d.nextId + 1, clock := d.clock + 1))
  {
    var ms := MatchesAfterLike(d.swipes, d.matches, me, t, d.nextId, d.clock);
    Advance(d, d.nextId + 1, d.clock + 1);
    LikeKeepsNormalised(d.swipes, d.matches, me, t, d.nextId, d.clock);
    if ms != d.matches {
      var m := ms[|ms| - 1];
      assert ms == d.matches + [m];
      KeyedSnoc(d.matches, MatchKey, d.nextId, m, d.nextId + 1);
      KeyedSnoc(d.matches, MatchCreated, d.clock, m, d.clock + 1);
      BelongAfterNewMatches(d.matches, [m], d.messages);
    }
  }

  /**
   * The catalogue after a find-or-create, the card found or a new one with the next id,
   * keeps the invariant, and the card is then found by its id.
   */
  lemma CatalogueStep(d: Database, cards': seq<Card>, card: Card)
    requires card in cards'
    requires cards' == d.cards || (cards' == d.cards + [card] && card.id == d.nextId)
    ensures Inv(d.(cards := cards', nextId := d.nextId + 1))
    ensures FindCard(cards', card.id).Some?
  {
    Advance(d, d.nextId + 1, d.clock);
    if cards' != d.cards {
      KeyedSnoc(d.cards, CardKey, d.nextId, card, d.nextId + 1);
    }
    CardsStayKnown(d.cards, cards'[|d.cards|..], d.userCards, d.wishes);
    assert cards' == d.cards + cards'[|d.cards|..];
    CardFound(cards', card);
  }

  /** A new copy of a catalogue card, with the next id and time, keeps the invariant. */
  lemma AddCopyStep(d: Database, row: UserCard)
    requires row.id == d.nextId && row.createdAt == d.clock && FindCard(d.cards, row.cardId).Some?
    ensures Inv(d.(userCards := d.userCards + [row], nextId := d.nextId + 1, clock := d.clock + 1))
  {
    Advance(d, d.nextId + 1, d.clock + 1);
    KeyedSnoc(d.userCards, CopyKey, d.nextId, row, d.nextId + 1);
    KeyedSnoc(d.userCards, CopyCreated, d.clock, row, d.clock + 1);
  }

  /** A like that passed the route's checks, with the match it may create, keeps the invariant. */
  lemma LikeStep(d: Database, me: int, t: int)
    requires me != t && FindSwipe(d.swipes, me, t).None?
    ensures var sw := d.swipes + [Swipe(d.nextId, me, t, SwipeType.Like)];
      Inv(d.(swipes := sw, matches := MatchesAfterLike(sw, d.matches, me, t, d.nextId + 1, d.clock),
             nextId := d.nextId + 2, clock := d.clock + 1))
  {
    var s := Swipe(d.nextId, me, t, SwipeType.Like);
    SwipeStep(d, s);
    MatchStep(d.(swipes := d.swipes + [s], nextId := d.nextId + 1), me, t);
  }

  /** A found-or-created card and a new copy of it keep the invariant. */
  lemma AddCardStep(d: Database, picked: Catalogued, row: UserCard)
    requires picked.card in picked.cards
    requires picked.cards == d.cards || (picked.cards == d.cards + [picked.card] && picked.card.id == d.nextId)
    requires row.id == d.nextId + 1 && row.createdAt == d.clock && row.cardId == picked.card.id
    ensures Inv(d.(cards := picked.cards, userCards := d.userCards + [row], nextId := d.nextId + 2, clock := d.clock + 1))
  {
    CatalogueStep(d, picked.cards, picked.card);
    AddCopyStep(d.(cards := picked.cards, nextId := d.nextId + 1), row);
  }

  /** A chosen card and a new wishlist entry for it, which its user did not have, keep the invariant. */
  lemma AddWishStep(d: Database, cards': seq<Card>, card: Card, entry: WishlistEntry)
    requires card in cards'
    requires cards' == d.cards || (cards' == d.cards + [card] && card.id == d.nextId)
    requires entry.id == d.nextId + 1 && entry.createdAt == d.clock && entry.cardId == card.id
    requires FindWish(d.wishes, entry.userId, card.id).None?
    ensures Inv(d.(cards := cards', wishes := d.wishes + [entry], nextId := d.nextId + 2, clock := d.clock + 1))
  {
    CatalogueStep(d, cards', card);
    AddWishEntryStep(d.(cards := cards', nextId := d.nextId + 1), entry);
  }

  /** Appending to the catalogue keeps every copy and wishlist entry on a known card. */
  lemma CardsStayKnown(cards: seq<Card>, more: seq<Card>, userCards: seq<UserCard>, wishes: seq<WishlistEntry>)
    requires CardsKnown(cards, userCards, wishes)
    ensures CardsKnown(cards + more, userCards, wishes)
  {
    forall c | c in userCards ensures FindCard(cards + more, c.cardId).Some? {
      CardStays(cards, more, c.cardId);
    }
    forall w | w in wishes ensures FindCard(cards + more, w.cardId).Some? {
      CardStays(cards, more, w.cardId);
    }
  }

  /** Changing the trade flag of one copy keeps the invariant. */
  lemma PatchCardStep(d: Database, i: nat, flag: bool)
    requires i < |d.userCards|
    ensures Inv(d.(userCards := d.userCards[i := d.userCards[i].(isForTrade := flag)]))
  {
    var row := d.userCards[i].(isForTrade := flag);
    KeyedReplace(d.userCards, CopyKey, d.nextId, i, row);
    KeyedReplace(d.userCards, CopyCreated, d.clock, i, row);
    assert d.userCards[i] in d.userCards;
  }

  /** Removing one copy keeps the invariant, and only that copy leaves the table. */
  lemma DeleteCardStep(d: Database, i: nat)
    requires i < |d.userCards|
    ensures Inv(d.(userCards := d.userCards[..i] + d.userCards[i + 1..]))
    ensures forall c :: c in d.userCards[..i] + d.userCards[i + 1..] <==> c in d.userCards && c.id != d.userCards[i].id
  {
    KeyedRemove(d.userCards, CopyKey, d.nextId, i);
    KeyedRemove(d.userCards, CopyCreated, d.clock, i);
    KeyedUnique(d.userCards, CopyKey, d.nextId, i);
    RemovedById(d.userCards, CopyKey, i);
  }

  /** When no other row has the key of the row at `i`, removing it removes exactly the rows with that key. */
  lemma RemovedById<T>(rows: seq<T>, key: T -> int, i: nat)
    requires i < |rows|
    requires forall j :: 0 <= j < |rows| && key(rows[j]) == key(rows[i]) ==> j == i
    ensures forall x :: x in rows[..i] + rows[i + 1..] <==> x in rows && key(x) != key(rows[i])
  {
    var r := rows[..i] + rows[i + 1..];
    forall x | x in r ensures x in rows && key(x) != key(rows[i]) {
      var a :| 0 <= a < |r| && r[a] == x;
      if a < i {
        assert r[a] == rows[a];
      } else {
        assert r[a] == rows[a + 1];
      }
    }
    forall x | x in rows && key(x) != key(rows[i]) ensures x in r {
      var a :| 0 <= a < |rows| && rows[a] == x;
      if a < i {
        assert r[a] == x;
      } else {
        assert a != i;
        assert r[a - 1] == x;
      }
    }
  }

  /** A card the wishlist route has just created is on nobody's wishlist yet. */
  lemma NewCardIsNotWished(d: Database, me: int)
    ensures FindWish(d.wishes, me, d.nextId).None?
  {
    forall w | w in d.wishes ensures w.cardId != d.nextId {
      var c := FindCard(d.cards, w.cardId).value;
      var k :| 0 <= k < |d.cards| && d.cards[k] == c;
      assert CardKey(d.cards[k]) < d.nextId;
    }
  }

  /**
   * A new wishlist entry, with the next id and time, for a catalogue card its user does not
   * yet wish for keeps the invariant.
   */
  lemma AddWishEntryStep(d: Database, entry: WishlistEntry)
    requires entry.id == d.nextId && entry.createdAt == d.clock && FindCard(d.cards, entry.cardId).Some?
    requires FindWish(d.wishes, entry.userId, entry.cardId).None?
    ensures Inv(d.(wishes := d.wishes + [entry], nextId := d.nextId + 1, clock := d.clock + 1))
  {
    Advance(d, d.nextId + 1, d.clock + 1);
    KeyedSnoc(d.wishes, WishKey, d.nextId, entry, d.nextId + 1);
    KeyedSnoc(d.wishes, WishCreated, d.clock, entry, d.clock + 1);
    OneWishPerCardAdd(d.wishes, entry);
  }

  /** An entry for a card its user does not yet wish for keeps one entry per user and card. */
  lemma OneWishPerCardAdd(wishes: seq<WishlistEntry>, entry: WishlistEntry)
    requires OneWishPerCard(wishes) && FindWish(wishes, entry.userId, entry.cardId).None?
    ensures OneWishPerCard(wishes + [entry])
  {
    var ws := wishes + [entry];
    forall a, b | 0 <= a < b < |ws| ensures !(ws[a].userId == ws[b].userId && ws[a].cardId == ws[b].cardId) {
      if b == |wishes| {
        assert ws[a] in wishes;
      } else {
        assert ws[a] == wishes[a] && ws[b] == wishes[b];
      }
    }
  }

  /** Removing one wishlist entry keeps the invariant, and only that entry leaves the table. */
  lemma DeleteWishStep(d: Database, i: nat)
    requires i < |d.wishes|
    ensures Inv(d.(wishes := d.wishes[..i] + d.wishes[i + 1..]))
    ensures forall w :: w in d.wishes[..i] + d.wishes[i + 1..] <==> w in d.wishes && w.id != d.wishes[i].id
  {
    KeyedRemove(d.wishes, WishKey, d.nextId, i);
    KeyedRemove(d.wishes, WishCreated, d.clock, i);
    KeyedUnique(d.wishes, WishKey, d.nextId, i);
    RemovedById(d.wishes, WishKey, i);
    OneWishPerCardRemove(d.wishes, i);
  }

  /** Removing an entry keeps the wishlist free of two entries of one user for one card. */
  lemma OneWishPerCardRemove(wishes: seq<WishlistEntry>, i: nat)
    requires OneWishPerCard(wishes) && i < |wishes|
    ensures OneWishPerCard(wishes[..i] + wishes[i + 1..])
  {
    var ws := wishes[..i] + wishes[i + 1..];
    forall a, b | 0 <= a < b < |ws| ensures !(ws[a].userId == ws[b].userId && ws[a].cardId == ws[b].cardId) {
      var a', b' := if a < i then a else a + 1, if b < i then b else b + 1;
      assert ws[a] == wishes[a'] && ws[b] == wishes[b'];
    }
  }

  /** A message between two participants of its match keeps the invariant. */
  lemma PostMessageStep(d: Database, x: Message)
    requires x.id == d.nextId && x.createdAt == d.clock
    requires MessageRoutes.MemberMatch(d.matches, x.matchId, x.fromUserId).Some?
    requires MessageRoutes.MemberMatch(d.matches, x.matchId, x.toUserId).Some?
    ensures Inv(d.(messages := d.messages + [x], nextId := d.nextId + 1, clock := d.clock + 1))
  {
    Advance(d, d.nextId + 1, d.clock + 1);
    KeyedSnoc(d.messages, MessageKey, d.nextId, x, d.nextId + 1);
    KeyedSnoc(d.messages, MessageCreated, d.clock, x, d.clock + 1);
  }

  /**
   * A database holding only user accounts with distinct ids keeps the invariant, and its
   * empty ledger and matches table agree.
   */
  lemma EmptyStore(accounts: seq<User>)
    requires UniqueUserIds(accounts)
    ensures Inv(Db(accounts, [], [], [], [], [], [], 1, 0))
    ensures Reciprocal([], [])
  {
  }

  /** The backend's state: its database, which every route keeps to the invariant. */
  class Store {
    var db: Database

    /** A store with the given accounts and nothing else. */
    constructor (accounts: seq<User>)
      requires UniqueUserIds(accounts)
      ensures db == Db(accounts, [], [], [], [], [], [], 1, 0)
    {
      EmptyStore(accounts);
      db := Db(accounts, [], [], [], [], [], [], 1, 0);
    }

    /** `GET /swipes/candidates` (swipes.js:20-195) on the store's tables. */
    method Candidates(me: int, limitQ: JsNum, offsetQ: JsNum, includeQ: Option<string>)
      returns (reply: Reply<CandidateSpec.CandidatePage>)
      ensures reply.Ok? && reply.status == 200
      ensures var ranked := CandidateSpec.Ranked(db.users, db.cards, db.userCards, db.wishes, db.swipes, me,
                                                 Paging.IncludeSwiped(includeQ));
              reply.body == CandidateSpec.CandidatePage(
                Paging.Page(ranked, Paging.EffectiveOffset(offsetQ), Paging.EffectiveLimit(limitQ)),
                |ranked|, Paging.EffectiveOffset(offsetQ))
    {
      reply := Ranking.GetCandidates(db.users, db.cards, db.userCards, db.wishes, db.swipes, me, limitQ, offsetQ, includeQ);
    }

    /**
     * `POST /swipes/like` (swipes.js:200-249): 400 for a bad target, 409 when the caller
     * already swiped that user either way, otherwise the like is recorded and, when the
     * target likes the caller back, the pair's match is found or created.
     */
    method Like(me: int, toUserId: Option<int>) returns (reply: Reply<SwipeAck>)
      modifies this
      ensures BadTarget(me, toUserId) ==> reply == Err(400) && db == old(db)
      ensures !BadTarget(me, toUserId) && FindSwipe(old(db.swipes), me, toUserId.value).Some? ==>
        reply == Err(409) && db == old(db)
      ensures !BadTarget(me, toUserId) && FindSwipe(old(db.swipes), me, toUserId.value).None? ==>
        var t := toUserId.value;
        && db == old(db).(swipes := old(db.swipes) + [Swipe(old(db.nextId), me, t, SwipeType.Like)],
                          matches := MatchesAfterLike(db.swipes, old(db.matches), me, t, old(db.nextId) + 1, old(db.clock)),
                          nextId := old(db.nextId) + 2, clock := old(db.clock) + 1)
        && reply == Ok(201, Liked(RefOf(MatchOfLike(db.swipes, old(db.matches), me, t, old(db.nextId) + 1, old(db.clock)))))
        && (reply.body.matched.Some? <==> HasLiked(old(db.swipes), t, me))
    {
      if BadTarget(me, toUserId) {
        return Err(400);
      }
      var t := toUserId.value;
      var d := db;
      if FindSwipe(d.swipes, me, t).Some? {
        return Err(409);
      }
      var s := Swipe(d.nextId, me, t, SwipeType.Like);
      var ledger := d.swipes + [s];
      var matched: Option<Match> := None;
      var table := d.matches;
      if FindLike(ledger, t, me).Some? {
        var user1Id, user2Id := Min(me, t), Max(me, t);
        matched := FindMatchPair(d.matches, user1Id, user2Id);
        if matched.None? {
          matched := Some(Match(d.nextId + 1, user1Id, user2Id, d.clock));
          table := d.matches + [matched.value];
        }
      }
      assert table == MatchesAfterLike(ledger, d.matches, me, t, d.nextId + 1, d.clock);
      assert matched == MatchOfLike(ledger, d.matches, me, t, d.nextId + 1, d.clock);
      LikeStep(d, me, t);
      OwnSwipeLeavesReverseLike(d.swipes, s);
      db := d.(swipes := ledger, matches := table, nextId := d.nextId + 2, clock := d.clock + 1);
      assert table == MatchesAfterLike(db.swipes, old(db.matches), me, t, old(db.nextId) + 1, old(db.clock));
      assert matched == MatchOfLike(db.swipes, old(db.matches), me, t, old(db.nextId) + 1, old(db.clock));
      reply := Ok(201, Liked(RefOf(matched)));
    }

    /**
     * `POST /swipes/dislike` (swipes.js:254-277): the same 400 and 409 answers, otherwise
     * the dislike is recorded and no match is touched.
     */
    method Dislike(me: int, toUserId: Option<int>) returns (reply: Reply<SwipeAck>)
      modifies this
      ensures BadTarget(me, toUserId) ==> reply == Err(400) && db == old(db)
      ensures !BadTarget(me, toUserId) && FindSwipe(old(db.swipes), me, toUserId.value).Some? ==>
        reply == Err(409) && db == old(db)
      ensures !BadTarget(me, toUserId) && FindSwipe(old(db.swipes), me, toUserId.value).None? ==>
        && db == old(db).(swipes := old(db.swipes) + [Swipe(old(db.nextId), me, toUserId.value, SwipeType.Dislike)],
                          nextId := old(db.nextId) + 1)
        && reply == Ok(201, Disliked)
    {
      if BadTarget(me, toUserId) {
        return Err(400);
      }
      var t := toUserId.value;
      var d := db;
      if FindSwipe(d.swipes, me, t).Some? {
        return Err(409);
      }
      var s := Swipe(d.nextId, me, t, SwipeType.Dislike);
      SwipeStep(d, s);
      db := d.(swipes := d.swipes + [s], nextId := d.nextId + 1);
      assert s == Swipe(old(db.nextId), me, toUserId.value, SwipeType.Dislike);
      reply := Ok(201, Disliked);
    }

    /**
     * `POST /cards/add` (cards.js:31-61): 400 unless the trimmed name is non-empty; then the
     * card `(name, setName || null, rarity || null)`, all trimmed, is found or created, and a
     * new copy of it is added to the caller's collection, without photo and with the trade
     * flag `Boolean(isForTrade)`.
     */
    method AddCard(me: int, name: Option<string>, setName: Option<string>, rarity: Option<string>, isForTrade: JsValue)
      returns (reply: Reply<UserCard>)
      modifies this
      ensures TrimOrNull(name).None? ==> reply == Err(400) && db == old(db)
      ensures TrimOrNull(name).Some? ==>
        var picked := FindOrCreate(old(db.cards), TrimOrNull(name).value, TrimOrNull(setName), TrimOrNull(rarity), old(db.nextId));
        var row := UserCard(old(db.nextId) + 1, me, picked.card.id, Truthy(isForTrade), None, old(db.clock));
        && db == old(db).(cards := picked.cards, userCards := old(db.userCards) + [row],
                          nextId := old(db.nextId) + 2, clock := old(db.clock) + 1)
        && reply == Ok(201, row)
    {
      var n := TrimOrNull(name);
      if n.None? {
        return Err(400);
      }
      var d := db;
      var picked := FindOrCreate(d.cards, n.value, TrimOrNull(setName), TrimOrNull(rarity), d.nextId);
      var row := UserCard(d.nextId + 1, me, picked.card.id, Truthy(isForTrade), None, d.clock);
      AddCardStep(d, picked, row);
      db := d.(cards := picked.cards, userCards := d.userCards + [row], nextId := d.nextId + 2, clock := d.clock + 1);
      assert picked == FindOrCreate(old(db.cards), TrimOrNull(name).value, TrimOrNull(setName), TrimOrNull(rarity), old(db.nextId));
      assert row == UserCard(old(db.nextId) + 1, me, picked.card.id, Truthy(isForTrade), None, old(db.clock));
      reply := Ok(201, row);
    }

    /**
     * `PATCH /cards/my/:id` (cards.js:68-86): 404 unless the caller owns the copy; otherwise
     * its trade flag becomes the given boolean, or stays as it was when none is given, and
     * nothing else changes.
     */
    method PatchCard(me: int, id: int, isForTrade: JsValue) returns (reply: Reply<UserCard>)
      modifies this
      ensures OwnedCopyAt(old(db.userCards), id, me).None? ==> reply == Err(404) && db == old(db)
      ensures OwnedCopyAt(old(db.userCards), id, me).Some? ==>
        var i := OwnedCopyAt(old(db.userCards), id, me).value;
        var row := old(db.userCards)[i].(isForTrade := TradeFlag(old(db.userCards)[i].isForTrade, isForTrade));
        && db == old(db).(userCards := old(db.userCards)[i := row])
        && reply == Ok(200, row)
    {
      var d := db;
      var at := OwnedCopyAt(d.userCards, id, me);
      if at.None? {
        return Err(404);
      }
      var i := at.value;
      var row := d.userCards[i].(isForTrade := TradeFlag(d.userCards[i].isForTrade, isForTrade));
      PatchCardStep(d, i, row.isForTrade);
      db := d.(userCards := d.userCards[i := row]);
      assert i == OwnedCopyAt(old(db.userCards), id, me).value;
      assert row == old(db.userCards)[i].(isForTrade := TradeFlag(old(db.userCards)[i].isForTrade, isForTrade));
      reply := Ok(200, row);
    }

    /** `DELETE /cards/my/:id` (cards.js:92-106): 404 unless the caller owns the copy; otherwise exactly that copy is removed. */
    method DeleteCard(me: int, id: int) returns (reply: Reply<()>)
      modifies this
      ensures OwnedCopyAt(old(db.userCards), id, me).None? ==> reply == Err(404) && db == old(db)
      ensures OwnedCopyAt(old(db.userCards), id, me).Some? ==>
        var i := OwnedCopyAt(old(db.userCards), id, me).value;
        && db == old(db).(userCards := old(db.userCards)[..i] + old(db.userCards)[i + 1..])
        && reply == Ok(200, ())
        && forall c :: c in db.userCards <==> c in old(db.userCards) && c.id != id
    {
      var d := db;
      var at := OwnedCopyAt(d.userCards, id, me);
      if at.None? {
        return Err(404);
      }
      var i := at.value;
      DeleteCardStep(d, i);
      db := d.(userCards := d.userCards[..i] + d.userCards[i + 1..]);
      assert i == OwnedCopyAt(old(db.userCards), id, me).value;
      reply := Ok(200, ());
    }

    /**
     * `POST /wishlist/add` (wishlist.js:34-78): 404 for an unknown `cardId`, 400 with neither
     * `cardId` nor `name`, 409 when the caller already wishes for the card; otherwise a new
     * entry with priority `priority` if it is an integer, else 3.
     */
    method AddWish(me: int, cardId: Option<int>, name: Option<string>, setName: Option<string>,
                   rarity: Option<string>, priority: JsValue) returns (reply: Reply<WishedCard>)
      modifies this
      ensures ChooseWishCard(old(db.cards), cardId, name, setName, rarity, old(db.nextId)).UnknownCard? ==>
        reply == Err(404) && db == old(db)
      ensures ChooseWishCard(old(db.cards), cardId, name, setName, rarity, old(db.nextId)).NameMissing? ==>
        reply == Err(400) && db == old(db)
      ensures var choice := ChooseWishCard(old(db.cards), cardId, name, setName, rarity, old(db.nextId));
        choice.Chosen? && FindWish(old(db.wishes), me, choice.card.id).Some? ==>
          reply == Err(409) && db == old(db)
      ensures var choice := ChooseWishCard(old(db.cards), cardId, name, setName, rarity, old(db.nextId));
        choice.Chosen? && FindWish(old(db.wishes), me, choice.card.id).None? ==>
          var entry := WishlistEntry(old(db.nextId) + 1, me, choice.card.id, Priority(priority), old(db.clock));
          && db == old(db).(cards := choice.cards, wishes := old(db.wishes) + [entry],
                            nextId := old(db.nextId) + 2, clock := old(db.clock) + 1)
          && reply == Ok(201, WishedCard(entry, Some(choice.card)))
    {
      var d := db;
      var choice := ChooseWishCard(d.cards, cardId, name, setName, rarity, d.nextId);
      if choice.UnknownCard? {
        return Err(404);
      }
      if choice.NameMissing? {
        return Err(400);
      }
      // The route creates the card before it looks for a duplicate entry; a card it has just
      // created is on no wishlist, so the 409 answer only comes after an existing card.
      if choice.cards != d.cards {
        NewCardIsNotWished(d, me);
      }
      if FindWish(d.wishes, me, choice.card.id).Some? {
        return Err(409);
      }
      var entry := WishlistEntry(d.nextId + 1, me, choice.card.id, Priority(priority), d.clock);
      AddWishStep(d, choice.cards, choice.card, entry);
      db := d.(cards := choice.cards, wishes := d.wishes + [entry], nextId := d.nextId + 2, clock := d.clock + 1);
      assert choice == ChooseWishCard(old(db.cards), cardId, name, setName, rarity, old(db.nextId));
      assert entry == WishlistEntry(old(db.nextId) + 1, me, choice.card.id, Priority(priority), old(db.clock));
      reply := Ok(201, WishedCard(entry, Some(choice.card)));
    }

    /** `DELETE /wishlist/:id` (wishlist.js:84-100): 404 unless the entry is the caller's; otherwise exactly that entry is removed. */
    method DeleteWish(me: int, id: int) returns (reply: Reply<()>)
      modifies this
      ensures OwnWishAt(old(db.wishes), id, me).None? ==> reply == Err(404) && db == old(db)
      ensures OwnWishAt(old(db.wishes), id, me).Some? ==>
        var i := OwnWishAt(old(db.wishes), id, me).value;
        && db == old(db).(wishes := old(db.wishes)[..i] + old(db.wishes)[i + 1..])
        && reply == Ok(200, ())
        && forall w :: w in db.wishes <==> w in old(db.wishes) && w.id != id
    {
      var d := db;
      var at := OwnWishAt(d.wishes, id, me);
      if at.None? {
        return Err(404);
      }
      var i := at.value;
      DeleteWishStep(d, i);
      db := d.(wishes := d.wishes[..i] + d.wishes[i + 1..]);
      assert i == OwnWishAt(old(db.wishes), id, me).value;
      reply := Ok(200, ());
    }

    /**
     * `POST /messages/:matchId` (messages.js:54-74) behind `ensureMatchMember`, as written:
     * 403 unless the caller takes part in the match, 400 for a missing or blank text, and
     * otherwise the `Message.create` of lines 63-67, which sets neither `fromUserId` nor
     * `toUserId` and so always fails validation; the catch at lines 70-72 answers 500. No
     * message is ever stored.
     */
    method PostMessageAsWritten(me: int, matchId: int, text: Option<string>) returns (reply: Reply<Message>)
      ensures MessageRoutes.MemberMatch(db.matches, matchId, me).None? ==> reply == Err(403)
      ensures MessageRoutes.MemberMatch(db.matches, matchId, me).Some? && MessageRoutes.CleanText(text).None? ==>
        reply == Err(400)
      ensures MessageRoutes.MemberMatch(db.matches, matchId, me).Some? && MessageRoutes.CleanText(text).Some? ==>
        reply == Err(500)
    {
      if MessageRoutes.MemberMatch(db.matches, matchId, me).None? {
        return Err(403);
      }
      var clean := MessageRoutes.CleanText(text);
      if clean.None? {
        return Err(400);
      }
      var row := MessageRoutes.Create(MessageRoutes.WrittenAttrs(matchId, me, clean.value), db.nextId, db.clock);
      MessageRoutes.WrittenCreateAlwaysFails(matchId, me, clean.value, db.nextId, db.clock);
      assert row.None?;
      reply := Err(500);
    }

    /**
     * `POST /messages/:matchId` as intended: the same 403 and 400 checks, then exactly one
     * message is appended, with the trimmed text, the caller as sender, the other participant
     * of the match as receiver and the route's match id; nothing else changes.
     */
    method PostMessage(me: int, matchId: int, text: Option<string>) returns (reply: Reply<Message>)
      modifies this
      ensures MessageRoutes.MemberMatch(old(db.matches), matchId, me).None? ==> reply == Err(403) && db == old(db)
      ensures MessageRoutes.MemberMatch(old(db.matches), matchId, me).Some? && MessageRoutes.CleanText(text).None? ==>
        reply == Err(400) && db == old(db)
      ensures MessageRoutes.MemberMatch(old(db.matches), matchId, me).Some? && MessageRoutes.CleanText(text).Some? ==>
        var m := MessageRoutes.MemberMatch(old(db.matches), matchId, me).value;
        var x := Message(old(db.nextId), matchId, me, MatchRoutes.OtherId(m, me), MessageRoutes.CleanText(text).value, old(db.clock));
        && db == old(db).(messages := old(db.messages) + [x], nextId := old(db.nextId) + 1, clock := old(db.clock) + 1)
        && reply == Ok(201, x)
        && x.toUserId != me
    {
      var d := db;
      var member := MessageRoutes.MemberMatch(d.matches, matchId, me);
      if member.None? {
        return Err(403);
      }
      var clean := MessageRoutes.CleanText(text);
      if clean.None? {
        return Err(400);
      }
      var m := member.value;
      assert m.user1Id < m.user2Id;
      MessageRoutes.IntendedCreateSucceeds(m, me, clean.value, d.nextId, d.clock);
      var x := MessageRoutes.Create(MessageRoutes.IntendedAttrs(m, me, clean.value), d.nextId, d.clock).value;
      assert MessageRoutes.MemberMatch(d.matches, matchId, x.toUserId).Some?;
      PostMessageStep(d, x);
      db := d.(messages := d.messages + [x], nextId := d.nextId + 1, clock := d.clock + 1);
      reply := Ok(201, x);
    }
  }
}
