/**
 * What the candidate list of `GET /swipes/candidates` (backend/routes/swipes.js)
 * guarantees: who is in it, which cards each candidate carries and why, how each is
 * scored, and how the list is ordered.
 */
module RankingProps {
  import opened Common
  import opened Tables
  import opened Dedupe
  import opened ScoreSort
  import opened CandidateSpec

  /** A candidate assembled from the Map is the scored entry of its own user. */
  lemma AssembledEntry(users: seq<User>, have: seq<Hit>, need: seq<Hit>, fill: seq<int>, c: Candidate)
    requires forall j :: j in fill ==> FindUser(users, j).Some?
    requires c in Assemble(users, have, need, fill)
    ensures FindUser(users, c.user.id).Some?
    ensures c.user.id in Order(users, have, need, fill)
    ensures c == Scored(EntryFor(users, have, need, c.user.id))
  {
    var r := Assemble(users, have, need, fill);
    var i :| 0 <= i < |r| && r[i] == c;
    var order := Order(users, have, need, fill);
    OrderKnown(users, have, need, fill);
    assert r[i] == CandidateOf(users, have, need, order, i);
  }

  /** The ids of the assembled candidates are the Map's keys, in key order. */
  lemma AssembledIds(users: seq<User>, have: seq<Hit>, need: seq<Hit>, fill: seq<int>)
    requires forall j :: j in fill ==> FindUser(users, j).Some?
    ensures CandidateIds(Assemble(users, have, need, fill)) == Order(users, have, need, fill)
  {
  }

  /** The sort only reorders: the ranked list holds exactly the Map's candidates. */
  lemma RankedMembers(users: seq<User>, cards: seq<Card>, userCards: seq<UserCard>,
                      wishes: seq<WishlistEntry>, swipes: seq<Swipe>, me: int, withSwiped: bool)
    ensures multiset(Ranked(users, cards, userCards, wishes, swipes, me, withSwiped))
         == multiset(Unranked(users, cards, userCards, wishes, swipes, me, withSwiped))
    ensures forall c :: c in Ranked(users, cards, userCards, wishes, swipes, me, withSwiped)
                    <==> c in Unranked(users, cards, userCards, wishes, swipes, me, withSwiped)
  {
    var u := Unranked(users, cards, userCards, wishes, swipes, me, withSwiped);
    SortByScoreIsStableSort(u);
    forall c ensures c in SortByScore(u) <==> c in u {
      assert c in SortByScore(u) <==> c in multiset(SortByScore(u));
      assert c in u <==> c in multiset(u);
    }
  }

  /**
   * The list is sorted by descending score, and candidates of equal score keep their
   * relative order in the Map, which is the order `candidates.sort` produces because
   * `Array.prototype.sort` is stable.
   */
  lemma RankedOrder(users: seq<User>, cards: seq<Card>, userCards: seq<UserCard>,
                    wishes: seq<WishlistEntry>, swipes: seq<Swipe>, me: int, withSwiped: bool)
    ensures var r := Ranked(users, cards, userCards, wishes, swipes, me, withSwiped);
            && (forall i, j :: 0 <= i < j < |r| ==> r[i].score >= r[j].score)
            && IsStableSortOf(Unranked(users, cards, userCards, wishes, swipes, me, withSwiped), r)
  {
    SortByScoreIsStableSort(Unranked(users, cards, userCards, wishes, swipes, me, withSwiped));
  }

  /**
   * Before the sort the candidates follow the Map's key order: the users reached in
   * direction A in row order, then the new ones of direction B, then the fill-in in
   * table order.
   */
  lemma UnrankedKeyOrder(users: seq<User>, cards: seq<Card>, userCards: seq<UserCard>,
                         wishes: seq<WishlistEntry>, swipes: seq<Swipe>, me: int, withSwiped: bool)
    ensures var rowsA := RowsA(cards, userCards, wishes, swipes, me, withSwiped);
            var rowsB := RowsB(cards, userCards, wishes, swipes, me, withSwiped);
            var ids := CandidateIds(Unranked(users, cards, userCards, wishes, swipes, me, withSwiped));
            && ids == Distinct(Found(rowsA, users) + Found(rowsB, users) + FillIds(users, swipes, me, withSwiped))
            && |Distinct(Found(rowsA, users))| <= |ids|
            && ids[..|Distinct(Found(rowsA, users))|] == Distinct(Found(rowsA, users))
  {
    var rowsA := RowsA(cards, userCards, wishes, swipes, me, withSwiped);
    var rowsB := RowsB(cards, userCards, wishes, swipes, me, withSwiped);
    var fill := FillIds(users, swipes, me, withSwiped);
    AssembledIds(users, rowsA, rowsB, fill);
    DistinctConcat3(Found(rowsA, users), Found(rowsB, users), fill);
  }

  /** Rows of direction A belong to eligible users. */
  lemma RowsAEligible(cards: seq<Card>, userCards: seq<UserCard>, wishes: seq<WishlistEntry>,
                      swipes: seq<Swipe>, me: int, withSwiped: bool, h: Hit)
    requires h in RowsA(cards, userCards, wishes, swipes, me, withSwiped)
    ensures Eligible(h.userId, me, withSwiped, SwipedIds(swipes, me))
  {
  }

  /** Rows of direction B belong to eligible users. */
  lemma RowsBEligible(cards: seq<Card>, userCards: seq<UserCard>, wishes: seq<WishlistEntry>,
                      swipes: seq<Swipe>, me: int, withSwiped: bool, h: Hit)
    requires h in RowsB(cards, userCards, wishes, swipes, me, withSwiped)
    ensures Eligible(h.userId, me, withSwiped, SwipedIds(swipes, me))
  {
  }

  /** Every key of the Map is an eligible user, and every eligible user is a key. */
  lemma OrderIsEligible(users: seq<User>, cards: seq<Card>, userCards: seq<UserCard>,
                        wishes: seq<WishlistEntry>, swipes: seq<Swipe>, me: int, withSwiped: bool)
    ensures forall k :: k in Order(users, RowsA(cards, userCards, wishes, swipes, me, withSwiped),
                                   RowsB(cards, userCards, wishes, swipes, me, withSwiped),
                                   FillIds(users, swipes, me, withSwiped))
                    <==> k in FillIds(users, swipes, me, withSwiped)
  {
    var rowsA := RowsA(cards, userCards, wishes, swipes, me, withSwiped);
    var rowsB := RowsB(cards, userCards, wishes, swipes, me, withSwiped);
    var swiped := SwipedIds(swipes, me);
    var eligible := EligibleUsers(users, me, withSwiped, swiped);
    var fill := FillIds(users, swipes, me, withSwiped);
    assert fill == UserIds(eligible);
    forall k | k in Found(rowsA, users) + Found(rowsB, users) ensures k in fill {
      var u := FindUser(users, k).value;
      if k in Found(rowsA, users) {
        var h :| h in rowsA && h.userId == k;
        RowsAEligible(cards, userCards, wishes, swipes, me, withSwiped, h);
      } else {
        var h :| h in rowsB && h.userId == k;
        RowsBEligible(cards, userCards, wishes, swipes, me, withSwiped, h);
      }
      assert u in eligible;
      var i :| 0 <= i < |eligible| && eligible[i] == u;
      assert fill[i] == k;
    }
  }

  /** Lists with the same candidates have the same candidate ids. */
  lemma SameIds(a: seq<Candidate>, b: seq<Candidate>)
    requires forall c :: c in a <==> c in b
    ensures forall k :: k in CandidateIds(a) <==> k in CandidateIds(b)
  {
    forall k | k in CandidateIds(a) ensures k in CandidateIds(b) {
      var i :| 0 <= i < |a| && CandidateIds(a)[i] == k;
      assert a[i] in b;
      var j :| 0 <= j < |b| && b[j] == a[i];
      assert CandidateIds(b)[j] == k;
    }
    forall k | k in CandidateIds(b) ensures k in CandidateIds(a) {
      var j :| 0 <= j < |b| && CandidateIds(b)[j] == k;
      assert b[j] in a;
      var i :| 0 <= i < |a| && a[i] == b[j];
      assert CandidateIds(a)[i] == k;
    }
  }

  /** The fill-in ids are the known eligible users. */
  lemma FillIdsAreEligible(users: seq<User>, swipes: seq<Swipe>, me: int, withSwiped: bool)
    ensures forall k :: k in FillIds(users, swipes, me, withSwiped) <==>
              (exists u :: u in users && u.id == k) && Eligible(k, me, withSwiped, SwipedIds(swipes, me))
  {
    var eligible := EligibleUsers(users, me, withSwiped, SwipedIds(swipes, me));
    var fill := FillIds(users, swipes, me, withSwiped);
    forall k ensures k in fill <==> (exists u :: u in users && u.id == k) && Eligible(k, me, withSwiped, SwipedIds(swipes, me)) {
      if k in fill {
        var i :| 0 <= i < |fill| && fill[i] == k;
        assert eligible[i] in eligible;
      }
      if (exists u :: u in users && u.id == k) && Eligible(k, me, withSwiped, SwipedIds(swipes, me)) {
        var u :| u in users && u.id == k;
        assert u in eligible;
        var i :| 0 <= i < |eligible| && eligible[i] == u;
        assert fill[i] == k;
      }
    }
  }

  /** The ranked candidates are the fill-in users, each once. */
  lemma RankedIdsAreFill(users: seq<User>, cards: seq<Card>, userCards: seq<UserCard>,
                         wishes: seq<WishlistEntry>, swipes: seq<Swipe>, me: int, withSwiped: bool)
    ensures var ids := CandidateIds(Ranked(users, cards, userCards, wishes, swipes, me, withSwiped));
            NoDups(ids) && forall k :: k in ids <==> k in FillIds(users, swipes, me, withSwiped)
  {
    var rowsA := RowsA(cards, userCards, wishes, swipes, me, withSwiped);
    var rowsB := RowsB(cards, userCards, wishes, swipes, me, withSwiped);
    var fill := FillIds(users, swipes, me, withSwiped);
    var unranked := Unranked(users, cards, userCards, wishes, swipes, me, withSwiped);
    AssembledIds(users, rowsA, rowsB, fill);
    OrderIsEligible(users, cards, userCards, wishes, swipes, me, withSwiped);
    RankedMembers(users, cards, userCards, wishes, swipes, me, withSwiped);
    SortKeepsIdsDistinct(unranked);
    SameIds(Ranked(users, cards, userCards, wishes, swipes, me, withSwiped), unranked);
  }

  /**
   * The candidate users are exactly the known users other than the viewer, minus those
   * the viewer has swiped when swiped users are not included; each appears once. In
   * particular the viewer is never a candidate.
   */
  lemma CandidateUsers(users: seq<User>, cards: seq<Card>, userCards: seq<UserCard>,
                       wishes: seq<WishlistEntry>, swipes: seq<Swipe>, me: int, withSwiped: bool)
    ensures var ids := CandidateIds(Ranked(users, cards, userCards, wishes, swipes, me, withSwiped));
            && NoDups(ids)
            && me !in ids
            && forall k :: k in ids <==>
                 (exists u :: u in users && u.id == k) &&
                 k != me && (withSwiped || !exists s :: s in swipes && s.fromUserId == me && s.toUserId == k)
  {
    RankedIdsAreFill(users, cards, userCards, wishes, swipes, me, withSwiped);
    FillIdsAreEligible(users, swipes, me, withSwiped);
  }

  /** An insertion holds the inserted candidate and the list's. */
  lemma {:induction false} InsertMembers(x: Candidate, t: seq<Candidate>)
    ensures forall c :: c in Insert(x, t) <==> c == x || c in t
    decreases |t|
  {
    if !(t == [] || x.score >= t[0].score) {
      InsertMembers(x, t[1..]);
      assert t == [t[0]] + t[1..];
    }
  }

  /** Inserting a candidate whose user is new keeps the user ids distinct. */
  lemma {:induction false} InsertKeepsIdsDistinct(x: Candidate, t: seq<Candidate>)
    requires NoDups(CandidateIds(t)) && x.user.id !in CandidateIds(t)
    ensures NoDups(CandidateIds(Insert(x, t)))
    decreases |t|
  {
    var tids := CandidateIds(t);
    if t == [] || x.score >= t[0].score {
      CandidateIdsCons(x, t);
      NoDupsCons(x.user.id, tids);
    } else {
      var t' := t[1..];
      assert t == [t[0]] + t';
      CandidateIdsCons(t[0], t');
      NoDupsCons(t[0].user.id, CandidateIds(t'));
      InsertKeepsIdsDistinct(x, t');
      var r' := Insert(x, t');
      InsertAvoidsId(x, t', t[0].user.id);
      CandidateIdsCons(t[0], r');
      NoDupsCons(t[0].user.id, CandidateIds(r'));
    }
  }

  /** An id that neither the inserted candidate nor the list has is not in the insertion either. */
  lemma InsertAvoidsId(x: Candidate, t: seq<Candidate>, k: int)
    requires x.user.id != k && k !in CandidateIds(t)
    ensures k !in CandidateIds(Insert(x, t))
  {
    var r := Insert(x, t);
    InsertMembers(x, t);
    forall i | 0 <= i < |r| ensures r[i].user.id != k {
      assert r[i] in r;
      if r[i] != x {
        var m :| 0 <= m < |t| && t[m] == r[i];
        assert CandidateIds(t)[m] == r[i].user.id;
      }
    }
  }

  /** The ids of a list with a first candidate: that candidate's id, then the rest's. */
  lemma CandidateIdsCons(c: Candidate, cs: seq<Candidate>)
    ensures CandidateIds([c] + cs) == [c.user.id] + CandidateIds(cs)
  {
  }

  /** The sort keeps the user ids of its input's candidates distinct. */
  lemma {:induction false} SortKeepsIdsDistinct(s: seq<Candidate>)
    requires NoDups(CandidateIds(s))
    ensures NoDups(CandidateIds(SortByScore(s)))
    decreases |s|
  {
    if s != [] {
      assert CandidateIds(s[1..]) == CandidateIds(s)[1..];
      SortKeepsIdsDistinct(s[1..]);
      SortByScoreIsStableSort(s[1..]);
      var rest := SortByScore(s[1..]);
      forall y | y in rest ensures y.user.id != s[0].user.id {
        assert y in multiset(rest);
        var j :| 0 <= j < |s[1..]| && s[1..][j] == y;
        assert CandidateIds(s)[j + 1] == y.user.id;
      }
      InsertKeepsIdsDistinct(s[0], rest);
    }
  }

  /** A card view in a candidate's `theyHaveINeed` list came from one of direction A's rows of that user. */
  lemma HaveCardFromRow(users: seq<User>, cards: seq<Card>, userCards: seq<UserCard>,
                        wishes: seq<WishlistEntry>, swipes: seq<Swipe>, me: int, withSwiped: bool,
                        c: Candidate, v: CardView)
    requires c in Ranked(users, cards, userCards, wishes, swipes, me, withSwiped) && v in c.theyHaveINeed
    ensures Hit(c.user.id, Some(v)) in RowsA(cards, userCards, wishes, swipes, me, withSwiped)
  {
    var rowsA := RowsA(cards, userCards, wishes, swipes, me, withSwiped);
    var rowsB := RowsB(cards, userCards, wishes, swipes, me, withSwiped);
    RankedMembers(users, cards, userCards, wishes, swipes, me, withSwiped);
    AssembledEntry(users, rowsA, rowsB, FillIds(users, swipes, me, withSwiped), c);
    DedupedContents(ViewsFor(rowsA, c.user.id));
  }

  /** A card view in a candidate's `theyNeedIHave` list came from one of direction B's rows of that user. */
  lemma NeedCardFromRow(users: seq<User>, cards: seq<Card>, userCards: seq<UserCard>,
                        wishes: seq<WishlistEntry>, swipes: seq<Swipe>, me: int, withSwiped: bool,
                        c: Candidate, v: CardView)
    requires c in Ranked(users, cards, userCards, wishes, swipes, me, withSwiped) && v in c.theyNeedIHave
    ensures Hit(c.user.id, Some(v)) in RowsB(cards, userCards, wishes, swipes, me, withSwiped)
  {
    var rowsA := RowsA(cards, userCards, wishes, swipes, me, withSwiped);
    var rowsB := RowsB(cards, userCards, wishes, swipes, me, withSwiped);
    RankedMembers(users, cards, userCards, wishes, swipes, me, withSwiped);
    AssembledEntry(users, rowsA, rowsB, FillIds(users, swipes, me, withSwiped), c);
    DedupedContents(ViewsFor(rowsB, c.user.id));
  }

  /**
   * "They have what I need": every card of a candidate's `theyHaveINeed` is on the
   * viewer's wishlist, and is a catalogue card of which the candidate holds a copy
   * marked for trade; the view carries that copy's photo and row id.
   */
  lemma HaveProvenance(users: seq<User>, cards: seq<Card>, userCards: seq<UserCard>,
                       wishes: seq<WishlistEntry>, swipes: seq<Swipe>, me: int, withSwiped: bool,
                       c: Candidate, v: CardView)
    requires c in Ranked(users, cards, userCards, wishes, swipes, me, withSwiped) && v in c.theyHaveINeed
    ensures && (exists w :: w in wishes && w.userId == me && w.cardId == v.id)
            && (exists uc :: uc in userCards && uc.userId == c.user.id && uc.cardId == v.id && uc.isForTrade
                             && v.photoUrl == uc.photoUrl && v.userCardId == Some(uc.id))
            && Card(v.id, v.name, v.setName, v.rarity) in cards
  {
    HaveCardFromRow(users, cards, userCards, wishes, swipes, me, withSwiped, c, v);
    HaveRowProvenance(cards, userCards, wishes, swipes, me, withSwiped, c.user.id, v);
  }

  /** A row of direction A with a card comes from a for-trade copy of a wanted card. */
  lemma HaveRowProvenance(cards: seq<Card>, userCards: seq<UserCard>, wishes: seq<WishlistEntry>,
                          swipes: seq<Swipe>, me: int, withSwiped: bool, k: int, v: CardView)
    requires Hit(k, Some(v)) in RowsA(cards, userCards, wishes, swipes, me, withSwiped)
    ensures exists w :: w in wishes && w.userId == me && w.cardId == v.id
    ensures exists uc :: uc in userCards && uc.userId == k && uc.cardId == v.id && uc.isForTrade
                         && v.photoUrl == uc.photoUrl && v.userCardId == Some(uc.id)
    ensures Card(v.id, v.name, v.setName, v.rarity) in cards
  {
    var wanted := WantedCardIds(wishes, me);
    var rows := HaveRows(cards, userCards, wanted, me, withSwiped, SwipedIds(swipes, me));
    assert Hit(k, Some(v)) in rows;
    var uc :| uc in userCards && uc.cardId in wanted && uc.isForTrade && Hit(k, Some(v)) == Hit(uc.userId, CopyView(cards, uc));
    assert CopyView(cards, uc) == Some(v);
  }

  /**
   * "They need what I have": every card of a candidate's `theyNeedIHave` is a catalogue
   * card the viewer holds a copy of (whatever its trade flag) and that is on the
   * candidate's wishlist; such a view carries no photo and no copy id.
   */
  lemma NeedProvenance(users: seq<User>, cards: seq<Card>, userCards: seq<UserCard>,
                       wishes: seq<WishlistEntry>, swipes: seq<Swipe>, me: int, withSwiped: bool,
                       c: Candidate, v: CardView)
    requires c in Ranked(users, cards, userCards, wishes, swipes, me, withSwiped) && v in c.theyNeedIHave
    ensures && (exists uc :: uc in userCards && uc.userId == me && uc.cardId == v.id)
            && (exists w :: w in wishes && w.userId == c.user.id && w.cardId == v.id)
            && Card(v.id, v.name, v.setName, v.rarity) in cards
            && v.photoUrl.None? && v.userCardId.None?
  {
    NeedCardFromRow(users, cards, userCards, wishes, swipes, me, withSwiped, c, v);
    NeedRowProvenance(cards, userCards, wishes, swipes, me, withSwiped, c.user.id, v);
  }

  /** A row of direction B with a card comes from a wish for a card the viewer owns. */
  lemma NeedRowProvenance(cards: seq<Card>, userCards: seq<UserCard>, wishes: seq<WishlistEntry>,
                          swipes: seq<Swipe>, me: int, withSwiped: bool, k: int, v: CardView)
    requires Hit(k, Some(v)) in RowsB(cards, userCards, wishes, swipes, me, withSwiped)
    ensures exists uc :: uc in userCards && uc.userId == me && uc.cardId == v.id
    ensures exists w :: w in wishes && w.userId == k && w.cardId == v.id
    ensures Card(v.id, v.name, v.setName, v.rarity) in cards
    ensures v.photoUrl.None? && v.userCardId.None?
  {
    var owned := OwnedCardIds(userCards, me);
    var rows := NeedRows(cards, wishes, owned, me, withSwiped, SwipedIds(swipes, me));
    assert Hit(k, Some(v)) in rows;
    var w :| w in wishes && w.cardId in owned && Hit(k, Some(v)) == Hit(w.userId, WishView(cards, w));
    assert WishView(cards, w) == Some(v);
  }

  /**
   * Each candidate's score is twice the number of cards they have that the viewer
   * needs plus the number the viewer has that they need, and each list names every
   * card at most once.
   */
  lemma CandidateScores(users: seq<User>, cards: seq<Card>, userCards: seq<UserCard>,
                        wishes: seq<WishlistEntry>, swipes: seq<Swipe>, me: int, withSwiped: bool)
    ensures forall c :: c in Ranked(users, cards, userCards, wishes, swipes, me, withSwiped) ==>
              && c.score == 2 * |c.theyHaveINeed| + |c.theyNeedIHave|
              && NoDups(CardIds(c.theyHaveINeed))
              && NoDups(CardIds(c.theyNeedIHave))
  {
    var rowsA := RowsA(cards, userCards, wishes, swipes, me, withSwiped);
    var rowsB := RowsB(cards, userCards, wishes, swipes, me, withSwiped);
    RankedMembers(users, cards, userCards, wishes, swipes, me, withSwiped);
    forall c | c in Ranked(users, cards, userCards, wishes, swipes, me, withSwiped)
      ensures && c.score == 2 * |c.theyHaveINeed| + |c.theyNeedIHave|
              && NoDups(CardIds(c.theyHaveINeed))
              && NoDups(CardIds(c.theyNeedIHave))
    {
      AssembledEntry(users, rowsA, rowsB, FillIds(users, swipes, me, withSwiped), c);
      DedupedContents(ViewsFor(rowsA, c.user.id));
      DedupedContents(ViewsFor(rowsB, c.user.id));
    }
  }

  /** Unique user ids make a list of distinct ids. */
  lemma UniqueUserIdsNoDups(us: seq<User>)
    requires UniqueUserIds(us)
    ensures NoDups(UserIds(us))
  {
  }

  /** `total` is the number of eligible users. */
  lemma TotalIsEligibleCount(users: seq<User>, cards: seq<Card>, userCards: seq<UserCard>,
                             wishes: seq<WishlistEntry>, swipes: seq<Swipe>, me: int, withSwiped: bool)
    requires UniqueUserIds(users)
    ensures |Ranked(users, cards, userCards, wishes, swipes, me, withSwiped)|
         == |EligibleUsers(users, me, withSwiped, SwipedIds(swipes, me))|
  {
    var rowsA := RowsA(cards, userCards, wishes, swipes, me, withSwiped);
    var rowsB := RowsB(cards, userCards, wishes, swipes, me, withSwiped);
    var fill := FillIds(users, swipes, me, withSwiped);
    var eligible := EligibleUsers(users, me, withSwiped, SwipedIds(swipes, me));
    assert fill == UserIds(eligible);
    UniqueUserIdsNoDups(eligible);
    OrderIsEligible(users, cards, userCards, wishes, swipes, me, withSwiped);
    assert forall k :: k in Order(users, rowsA, rowsB, fill) <==> k in fill;
    SameElementsSameLength(Order(users, rowsA, rowsB, fill), fill);
  }

  /**
   * A viewer with no cards and an empty wishlist sees every eligible user in table
   * order, each with empty lists and score 0.
   */
  lemma NoInventoryListsEveryone(users: seq<User>, cards: seq<Card>, userCards: seq<UserCard>,
                                 wishes: seq<WishlistEntry>, swipes: seq<Swipe>, me: int, withSwiped: bool)
    requires UniqueUserIds(users)
    requires forall uc :: uc in userCards ==> uc.userId != me
    requires forall w :: w in wishes ==> w.userId != me
    ensures CandidateIds(Ranked(users, cards, userCards, wishes, swipes, me, withSwiped)) == FillIds(users, swipes, me, withSwiped)
    ensures forall c :: c in Ranked(users, cards, userCards, wishes, swipes, me, withSwiped) ==>
              c.score == 0 && c.theyHaveINeed == [] && c.theyNeedIHave == []
  {
    var rowsA := RowsA(cards, userCards, wishes, swipes, me, withSwiped);
    var rowsB := RowsB(cards, userCards, wishes, swipes, me, withSwiped);
    assert rowsA == [] && rowsB == [];
    var fill := FillIds(users, swipes, me, withSwiped);
    var eligible := EligibleUsers(users, me, withSwiped, SwipedIds(swipes, me));
    assert fill == UserIds(eligible);
    UniqueUserIdsNoDups(eligible);
    assert Found([], users) + Found([], users) + fill == fill;
    DistinctOfNoDups(fill);
    AssembledIds(users, [], [], fill);
    var unranked := Unranked(users, cards, userCards, wishes, swipes, me, withSwiped);
    assert unranked == Assemble(users, [], [], fill);
    NoRowsAllZero(users, fill);
    StableSortIsUnique(unranked, unranked);
  }

  /** Without inventory rows every assembled entry has empty lists and score 0, so the Map is already in order. */
  lemma NoRowsAllZero(users: seq<User>, fill: seq<int>)
    requires forall j :: j in fill ==> FindUser(users, j).Some?
    ensures forall c :: c in Assemble(users, [], [], fill) ==>
              c.score == 0 && c.theyHaveINeed == [] && c.theyNeedIHave == []
    ensures NonIncreasing(Assemble(users, [], [], fill))
  {
    var r := Assemble(users, [], [], fill);
    assert CardIds(Deduped([])) == [];
    forall c | c in r ensures c.score == 0 && c.theyHaveINeed == [] && c.theyNeedIHave == [] {
      AssembledEntry(users, [], [], fill, c);
    }
    forall i, j | 0 <= i < j < |r| ensures r[i].score >= r[j].score {
      assert r[i] in r;
      assert r[j] in r;
    }
  }
}
