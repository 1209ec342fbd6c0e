/**
 * The handler of `GET /swipes/candidates` (backend/routes/swipes.js) as the loops it
 * runs: direction A and direction B fill `candidatesMap` row by row, the fill-in pass
 * adds every other eligible user, and a last pass deduplicates and scores each entry.
 * The JavaScript Map is kept as its key order and a map from key to value.
 */
module Ranking {
  import opened Common
  import opened Tables
  import opened Dedupe
  import opened ScoreSort
  import opened Paging
  import opened CandidateSpec

  /**
   * `candidatesMap` after reading the rows `have` of direction A, the rows `need` of
   * direction B and the user ids `fill` of the fill-in pass.
   */
  ghost predicate Mirrors(users: seq<User>, have: seq<Hit>, need: seq<Hit>, fill: seq<int>,
                          order: seq<int>, entries: map<int, Entry>)
  {
    order == Order(users, have, need, fill) && SameKeys(order, entries) && EntriesAre(users, have, need, entries)
  }

  /** The Map's keys are the keys of its key order. */
  ghost predicate SameKeys(order: seq<int>, entries: map<int, Entry>)
  {
    forall k :: k in entries <==> k in order
  }

  /** Each value of the Map is the entry its rows give its user. */
  ghost predicate EntriesAre(users: seq<User>, have: seq<Hit>, need: seq<Hit>, entries: map<int, Entry>)
  {
    forall k :: k in entries ==> FindUser(users, k).Some? && entries[k] == EntryFor(users, have, need, k)
  }

  lemma FoundSnoc(hits: seq<Hit>, h: Hit, users: seq<User>)
    ensures Found(hits + [h], users)
         == Found(hits, users) + (if FindUser(users, h.userId).Some? then [h.userId] else [])
  {
    assert (hits + [h])[..|hits|] == hits;
  }

  lemma ViewsForSnoc(hits: seq<Hit>, h: Hit, k: int)
    ensures ViewsFor(hits + [h], k)
         == ViewsFor(hits, k) + (if h.userId == k && h.view.Some? then [h.view.value] else [])
  {
    assert (hits + [h])[..|hits|] == hits;
  }

  /** A known user whom no row names has no cards from those rows. */
  lemma {:induction false} ViewsForNone(hits: seq<Hit>, users: seq<User>, k: int)
    requires FindUser(users, k).Some? && k !in Found(hits, users)
    ensures ViewsFor(hits, k) == []
    decreases |hits|
  {
    if hits != [] {
      var init := hits[..|hits| - 1];
      assert hits == init + [hits[|hits| - 1]];
      FoundSnoc(init, hits[|hits| - 1], users);
      ViewsForSnoc(init, hits[|hits| - 1], k);
      ViewsForNone(init, users, k);
    }
  }

  /** Appending to the rows of direction A before any row of B or the fill-in is read. */
  lemma OrderHaveSnoc(users: seq<User>, have: seq<Hit>, h: Hit)
    ensures Order(users, have + [h], [], [])
         == if FindUser(users, h.userId).Some? && h.userId !in Found(have, users)
            then Order(users, have, [], []) + [h.userId] else Order(users, have, [], [])
  {
    FoundSnoc(have, h, users);
    assert Found(have, users) + [] + [] == Found(have, users);
    assert Found(have + [h], users) + [] + [] == Found(have + [h], users);
    if FindUser(users, h.userId).Some? {
      DistinctSnoc(Found(have, users), h.userId);
    }
  }

  /** Appending to the rows of direction B before the fill-in is read. */
  lemma OrderNeedSnoc(users: seq<User>, have: seq<Hit>, need: seq<Hit>, h: Hit)
    ensures Order(users, have, need + [h], [])
         == if FindUser(users, h.userId).Some? && h.userId !in Found(have, users) + Found(need, users)
            then Order(users, have, need, []) + [h.userId] else Order(users, have, need, [])
  {
    var a := Found(have, users);
    FoundSnoc(need, h, users);
    assert a + Found(need, users) + [] == a + Found(need, users);
    assert a + Found(need + [h], users) + [] == a + Found(need + [h], users);
    if FindUser(users, h.userId).Some? {
      assert a + Found(need + [h], users) == (a + Found(need, users)) + [h.userId];
      DistinctSnoc(a + Found(need, users), h.userId);
    }
  }

  /** A row of direction A without a card leaves every value as it was. */
  lemma EntriesNoViewHave(users: seq<User>, have: seq<Hit>, need: seq<Hit>, h: Hit, entries: map<int, Entry>)
    requires EntriesAre(users, have, need, entries)
    requires h.view.None? || FindUser(users, h.userId).None?
    ensures EntriesAre(users, have + [h], need, entries)
  {
    forall j | j in entries ensures ViewsFor(have + [h], j) == ViewsFor(have, j) {
      ViewsForSnoc(have, h, j);
    }
  }

  /** A row of direction B without a card leaves every value as it was. */
  lemma EntriesNoViewNeed(users: seq<User>, have: seq<Hit>, need: seq<Hit>, h: Hit, entries: map<int, Entry>)
    requires EntriesAre(users, have, need, entries)
    requires h.view.None? || FindUser(users, h.userId).None?
    ensures EntriesAre(users, have, need + [h], entries)
  {
    forall j | j in entries ensures ViewsFor(need + [h], j) == ViewsFor(need, j) {
      ViewsForSnoc(need, h, j);
    }
  }

  /** A new key whose user no row has given a card gets the entry with two empty lists. */
  lemma EntriesNewKey(users: seq<User>, have: seq<Hit>, need: seq<Hit>, k: int, entries: map<int, Entry>)
    requires EntriesAre(users, have, need, entries)
    requires FindUser(users, k).Some? && ViewsFor(have, k) == [] && ViewsFor(need, k) == []
    ensures EntriesAre(users, have, need, entries[k := Entry(Brief(FindUser(users, k).value), [], [])])
  {
  }

  /** Pushing a card of direction A onto the list of its user. */
  lemma EntriesPushHave(users: seq<User>, have: seq<Hit>, need: seq<Hit>, k: int, v: CardView, entries: map<int, Entry>)
    requires EntriesAre(users, have + [Hit(k, None)], need, entries)
    requires k in entries
    ensures EntriesAre(users, have + [Hit(k, Some(v))], need, entries[k := entries[k].(have := entries[k].have + [v])])
  {
    forall j | j in entries
      ensures ViewsFor(have + [Hit(k, Some(v))], j) == ViewsFor(have + [Hit(k, None)], j) + (if j == k then [v] else [])
    {
      ViewsForSnoc(have, Hit(k, None), j);
      ViewsForSnoc(have, Hit(k, Some(v)), j);
    }
  }

  /** Pushing a card of direction B onto the list of its user. */
  lemma EntriesPushNeed(users: seq<User>, have: seq<Hit>, need: seq<Hit>, k: int, v: CardView, entries: map<int, Entry>)
    requires EntriesAre(users, have, need + [Hit(k, None)], entries)
    requires k in entries
    ensures EntriesAre(users, have, need + [Hit(k, Some(v))], entries[k := entries[k].(need := entries[k].need + [v])])
  {
    forall j | j in entries
      ensures ViewsFor(need + [Hit(k, Some(v))], j) == ViewsFor(need + [Hit(k, None)], j) + (if j == k then [v] else [])
    {
      ViewsForSnoc(need, Hit(k, None), j);
      ViewsForSnoc(need, Hit(k, Some(v)), j);
    }
  }

  /** Whether a row carries a card does not change which users the rows find. */
  lemma FoundIgnoresView(hits: seq<Hit>, k: int, v: Option<CardView>, w: Option<CardView>, users: seq<User>)
    ensures Found(hits + [Hit(k, v)], users) == Found(hits + [Hit(k, w)], users)
  {
    FoundSnoc(hits, Hit(k, v), users);
    FoundSnoc(hits, Hit(k, w), users);
  }

  /** A key is in the Map of direction A exactly when one of its rows names it. */
  lemma KeyInHave(users: seq<User>, have: seq<Hit>, k: int, order: seq<int>)
    requires order == Order(users, have, [], [])
    ensures k in order <==> k in Found(have, users)
  {
    assert Found(have, users) + Found([], users) + [] == Found(have, users);
  }

  /** A key is in the Map of directions A and B exactly when one of their rows names it. */
  lemma KeyInNeed(users: seq<User>, have: seq<Hit>, need: seq<Hit>, k: int, order: seq<int>)
    requires order == Order(users, have, need, [])
    ensures k in order <==> k in Found(have, users) || k in Found(need, users)
  {
    assert Found(have, users) + Found(need, users) + [] == Found(have, users) + Found(need, users);
  }

  /** A row whose user the `userMap` does not know changes nothing (`if (!u) continue`). */
  lemma SkipHave(users: seq<User>, have: seq<Hit>, h: Hit, order: seq<int>, entries: map<int, Entry>)
    requires Mirrors(users, have, [], [], order, entries)
    requires FindUser(users, h.userId).None?
    ensures Mirrors(users, have + [h], [], [], order, entries)
  {
    OrderHaveSnoc(users, have, h);
    EntriesNoViewHave(users, have, [], h, entries);
  }

  /** `if (!candidatesMap.has(u.id)) candidatesMap.set(u.id, ...)` in direction A. */
  lemma KeyHave(users: seq<User>, have: seq<Hit>, k: int, order: seq<int>, entries: map<int, Entry>)
    requires Mirrors(users, have, [], [], order, entries)
    requires FindUser(users, k).Some?
    ensures Mirrors(users, have + [Hit(k, None)], [], [],
                    if k in entries then order else order + [k],
                    if k in entries then entries else entries[k := Entry(Brief(FindUser(users, k).value), [], [])])
  {
    OrderHaveSnoc(users, have, Hit(k, None));
    KeyInHave(users, have, k, order);
    EntriesNoViewHave(users, have, [], Hit(k, None), entries);
    if k !in entries {
      ViewsForNone(have, users, k);
      ViewsForSnoc(have, Hit(k, None), k);
      EntriesNewKey(users, have + [Hit(k, None)], [], k, entries);
    }
  }

  /** `candidatesMap.get(u.id).theyHaveINeed.push(card)`. */
  lemma PushHave(users: seq<User>, have: seq<Hit>, k: int, v: CardView, order: seq<int>, entries: map<int, Entry>)
    requires Mirrors(users, have + [Hit(k, None)], [], [], order, entries)
    requires k in entries
    ensures Mirrors(users, have + [Hit(k, Some(v))], [], [], order,
                    entries[k := entries[k].(have := entries[k].have + [v])])
  {
    FoundIgnoresView(have, k, None, Some(v), users);
    EntriesPushHave(users, have, [], k, v, entries);
  }

  /** A row of direction B whose user is unknown changes nothing. */
  lemma SkipNeed(users: seq<User>, have: seq<Hit>, need: seq<Hit>, h: Hit, order: seq<int>, entries: map<int, Entry>)
    requires Mirrors(users, have, need, [], order, entries)
    requires FindUser(users, h.userId).None?
    ensures Mirrors(users, have, need + [h], [], order, entries)
  {
    OrderNeedSnoc(users, have, need, h);
    EntriesNoViewNeed(users, have, need, h, entries);
  }

  /** `if (!candidatesMap.has(u.id)) candidatesMap.set(u.id, ...)` in direction B. */
  lemma KeyNeed(users: seq<User>, have: seq<Hit>, need: seq<Hit>, k: int, order: seq<int>, entries: map<int, Entry>)
    requires Mirrors(users, have, need, [], order, entries)
    requires FindUser(users, k).Some?
    ensures Mirrors(users, have, need + [Hit(k, None)], [],
                    if k in entries then order else order + [k],
                    if k in entries then entries else entries[k := Entry(Brief(FindUser(users, k).value), [], [])])
  {
    OrderNeedSnoc(users, have, need, Hit(k, None));
    KeyInNeed(users, have, need, k, order);
    EntriesNoViewNeed(users, have, need, Hit(k, None), entries);
    if k !in entries {
      ViewsForNone(have, users, k);
      ViewsForNone(need, users, k);
      ViewsForSnoc(need, Hit(k, None), k);
      EntriesNewKey(users, have, need + [Hit(k, None)], k, entries);
    }
  }

  /** `candidatesMap.get(u.id).theyNeedIHave.push(card)`. */
  lemma PushNeed(users: seq<User>, have: seq<Hit>, need: seq<Hit>, k: int, v: CardView,
                 order: seq<int>, entries: map<int, Entry>)
    requires Mirrors(users, have, need + [Hit(k, None)], [], order, entries)
    requires k in entries
    ensures Mirrors(users, have, need + [Hit(k, Some(v))], [], order,
                    entries[k := entries[k].(need := entries[k].need + [v])])
  {
    FoundIgnoresView(need, k, None, Some(v), users);
    EntriesPushNeed(users, have, need, k, v, entries);
  }

  /** A key is in the Map after the fill-in exactly when a row or the fill-in names it. */
  lemma KeyInFill(users: seq<User>, have: seq<Hit>, need: seq<Hit>, fill: seq<int>, k: int, order: seq<int>)
    requires order == Order(users, have, need, fill)
    ensures k in order <==> k in Found(have, users) || k in Found(need, users) || k in fill
  {
  }

  /** The fill-in's new ids go to the end of the key order when they are new. */
  lemma OrderFillSnoc(users: seq<User>, have: seq<Hit>, need: seq<Hit>, fill: seq<int>, k: int)
    ensures Order(users, have, need, fill + [k])
         == if k in Order(users, have, need, fill) then Order(users, have, need, fill) else Order(users, have, need, fill) + [k]
  {
    var x := Found(have, users) + Found(need, users);
    assert x + (fill + [k]) == (x + fill) + [k];
    DistinctSnoc(x + fill, k);
  }

  /** One user of the fill-in pass (the loop at lines 154-162). */
  lemma FillStep(users: seq<User>, have: seq<Hit>, need: seq<Hit>, fill: seq<int>, k: int,
                 order: seq<int>, entries: map<int, Entry>)
    requires Mirrors(users, have, need, fill, order, entries)
    requires FindUser(users, k).Some?
    ensures Mirrors(users, have, need, fill + [k],
                    if k in entries then order else order + [k],
                    if k in entries then entries else entries[k := Entry(Brief(FindUser(users, k).value), [], [])])
  {
    OrderFillSnoc(users, have, need, fill, k);
    if k !in entries {
      KeyInFill(users, have, need, fill, k, order);
      ViewsForNone(have, users, k);
      ViewsForNone(need, users, k);
      EntriesNewKey(users, have, need, k, entries);
    }
  }

  /** Every key in the key order has a value. */
  lemma MirrorsKeys(users: seq<User>, have: seq<Hit>, need: seq<Hit>, fill: seq<int>,
                    order: seq<int>, entries: map<int, Entry>)
    requires Mirrors(users, have, need, fill, order, entries)
    ensures forall i :: 0 <= i < |order| ==> order[i] in entries
  {
    forall i | 0 <= i < |order| ensures order[i] in entries {
      var k := order[i];
      assert k in order;
      assert k in entries <==> k in order;
    }
  }

  /** The scored entries in key order are the candidates the specification assembles. */
  lemma FinalizeIsAssemble(users: seq<User>, have: seq<Hit>, need: seq<Hit>, fill: seq<int>,
                           order: seq<int>, entries: map<int, Entry>, out: seq<Candidate>)
    requires forall j :: j in fill ==> FindUser(users, j).Some?
    requires Mirrors(users, have, need, fill, order, entries)
    requires |out| == |order|
    requires forall i :: 0 <= i < |order| ==> order[i] in entries && out[i] == Scored(entries[order[i]])
    ensures out == Assemble(users, have, need, fill)
  {
    var spec := Assemble(users, have, need, fill);
    forall i | 0 <= i < |spec| ensures out[i] == spec[i] {
      var k := order[i];
      assert k in entries;
      assert spec[i] == CandidateOf(users, have, need, order, i);
    }
  }

  /** Direction A: each row's user gets an entry, and the row's card is pushed onto its `theyHaveINeed`. */
  method CollectHave(users: seq<User>, rows: seq<Hit>) returns (order: seq<int>, entries: map<int, Entry>)
    ensures Mirrors(users, rows, [], [], order, entries)
  {
    order, entries := [], map[];
    for i := 0 to |rows|
      invariant Mirrors(users, rows[..i], [], [], order, entries)
    {
      var r := rows[i];
      assert rows[..i + 1] == rows[..i] + [r];
      var u := FindUser(users, r.userId);             // userMap.get(r.UserId)
      if u.Some? {
        var k := u.value.id;
        KeyHave(users, rows[..i], k, order, entries);
        if k !in entries {
          order := order + [k];
          entries := entries[k := Entry(Brief(u.value), [], [])];
        }
        if r.view.Some? {
          PushHave(users, rows[..i], k, r.view.value, order, entries);
          entries := entries[k := entries[k].(have := entries[k].have + [r.view.value])];
        }
      } else {
        SkipHave(users, rows[..i], r, order, entries);
      }
    }
    assert rows[..|rows|] == rows;
  }

  /** Direction B: as direction A, pushing onto `theyNeedIHave`. */
  method CollectNeed(users: seq<User>, have: seq<Hit>, rows: seq<Hit>, order0: seq<int>, entries0: map<int, Entry>)
    returns (order: seq<int>, entries: map<int, Entry>)
    requires Mirrors(users, have, [], [], order0, entries0)
    ensures Mirrors(users, have, rows, [], order, entries)
  {
    order, entries := order0, entries0;
    for i := 0 to |rows|
      invariant Mirrors(users, have, rows[..i], [], order, entries)
    {
      var r := rows[i];
      assert rows[..i + 1] == rows[..i] + [r];
      var u := FindUser(users, r.userId);
      if u.Some? {
        var k := u.value.id;
        KeyNeed(users, have, rows[..i], k, order, entries);
        if k !in entries {
          order := order + [k];
          entries := entries[k := Entry(Brief(u.value), [], [])];
        }
        if r.view.Some? {
          PushNeed(users, have, rows[..i], k, r.view.value, order, entries);
          entries := entries[k := entries[k].(need := entries[k].need + [r.view.value])];
        }
      } else {
        SkipNeed(users, have, rows[..i], r, order, entries);
      }
    }
    assert rows[..|rows|] == rows;
  }

  /** The fill-in pass: every listed user without an entry gets an empty one. */
  method FillIn(users: seq<User>, have: seq<Hit>, need: seq<Hit>, allUsers: seq<User>,
                order0: seq<int>, entries0: map<int, Entry>)
    returns (order: seq<int>, entries: map<int, Entry>)
    requires UniqueUserIds(users)
    requires forall u :: u in allUsers ==> u in users
    requires Mirrors(users, have, need, [], order0, entries0)
    ensures Mirrors(users, have, need, UserIds(allUsers), order, entries)
  {
    order, entries := order0, entries0;
    for i := 0 to |allUsers|
      invariant Mirrors(users, have, need, UserIds(allUsers[..i]), order, entries)
    {
      var u := allUsers[i];
      assert UserIds(allUsers[..i + 1]) == UserIds(allUsers[..i]) + [u.id];
      assert FindUser(users, u.id) == Some(u);
      FillStep(users, have, need, UserIds(allUsers[..i]), u.id, order, entries);
      if u.id !in entries {
        order := order + [u.id];
        entries := entries[u.id := Entry(Brief(u), [], [])];
      }
    }
    assert allUsers[..|allUsers|] == allUsers;
  }

  /**
   * `[...candidatesMap.values()].map(...)`: each entry in key order with both card
   * lists passed through `dedupeById` and its score computed.
   */
  method Finalize(order: seq<int>, entries: map<int, Entry>) returns (out: seq<Candidate>)
    requires forall i :: 0 <= i < |order| ==> order[i] in entries
    ensures |out| == |order|
    ensures forall i :: 0 <= i < |order| ==> out[i] == Scored(entries[order[i]])
  {
    out := [];
    for i := 0 to |order|
      invariant |out| == i
      invariant forall j :: 0 <= j < i ==> out[j] == Scored(entries[order[j]])
    {
      var e := entries[order[i]];
      var have := DedupeById(e.have);
      var need := DedupeById(e.need);
      out := out + [Candidate(e.user, have, need, |have| * 2 + |need|)];
    }
  }

  /** Before any row is read the Map is empty. */
  lemma MirrorsEmpty(users: seq<User>)
    ensures Mirrors(users, [], [], [], [], map[])
  {
    assert Found([], users) + Found([], users) + [] == [];
  }

  /** Direction A is skipped when the viewer wants nothing, and then has no rows. */
  lemma RowsAWhenWanted(cards: seq<Card>, userCards: seq<UserCard>, wishes: seq<WishlistEntry>,
                        swipes: seq<Swipe>, me: int, withSwiped: bool)
    ensures RowsA(cards, userCards, wishes, swipes, me, withSwiped)
         == if |WantedCardIds(wishes, me)| > 0
            then Take(HaveRows(cards, userCards, WantedCardIds(wishes, me), me, withSwiped, SwipedIds(swipes, me)), RowLimit)
            else []
  {
  }

  /** Direction B is skipped when the viewer owns nothing, and then has no rows. */
  lemma RowsBWhenOwned(cards: seq<Card>, userCards: seq<UserCard>, wishes: seq<WishlistEntry>,
                       swipes: seq<Swipe>, me: int, withSwiped: bool)
    ensures RowsB(cards, userCards, wishes, swipes, me, withSwiped)
         == if |OwnedCardIds(userCards, me)| > 0
            then Take(NeedRows(cards, wishes, OwnedCardIds(userCards, me), me, withSwiped, SwipedIds(swipes, me)), RowLimit)
            else []
  {
  }

  /**
   * Lines 29-182 of the handler: the viewer's inputs are read, the Map is filled by
   * directions A and B (each only when its card list is non-empty) and by the fill-in
   * pass, and each entry is deduplicated and scored.
   */
  method CollectCandidates(users: seq<User>, cards: seq<Card>, userCards: seq<UserCard>,
                           wishes: seq<WishlistEntry>, swipes: seq<Swipe>, me: int, withSwiped: bool)
    returns (candidates: seq<Candidate>)
    requires UniqueUserIds(users)
    ensures candidates == Unranked(users, cards, userCards, wishes, swipes, me, withSwiped)
  {
    var swiped := SwipedIds(swipes, me);
    var owned := OwnedCardIds(userCards, me);
    var wanted := WantedCardIds(wishes, me);
    RowsAWhenWanted(cards, userCards, wishes, swipes, me, withSwiped);
    RowsBWhenOwned(cards, userCards, wishes, swipes, me, withSwiped);
    MirrorsEmpty(users);

    var rowsA: seq<Hit> := [];
    var order: seq<int>, entries: map<int, Entry> := [], map[];
    if |wanted| > 0 {
      rowsA := Take(HaveRows(cards, userCards, wanted, me, withSwiped, swiped), RowLimit);
      order, entries := CollectHave(users, rowsA);
    }

    var rowsB: seq<Hit> := [];
    if |owned| > 0 {
      rowsB := Take(NeedRows(cards, wishes, owned, me, withSwiped, swiped), RowLimit);
      order, entries := CollectNeed(users, rowsA, rowsB, order, entries);
    }

    var allUsers := EligibleUsers(users, me, withSwiped, swiped);
    order, entries := FillIn(users, rowsA, rowsB, allUsers, order, entries);

    MirrorsKeys(users, rowsA, rowsB, UserIds(allUsers), order, entries);
    candidates := Finalize(order, entries);
    FinalizeIsAssemble(users, rowsA, rowsB, UserIds(allUsers), order, entries, candidates);
  }

  /**
   * `GET /swipes/candidates` for the viewer `me`: the candidates sorted by descending
   * score, the page `[offset, offset + limit)` of them, their total and the offset.
   */
  method GetCandidates(users: seq<User>, cards: seq<Card>, userCards: seq<UserCard>,
                       wishes: seq<WishlistEntry>, swipes: seq<Swipe>, me: int,
                       limitQ: JsNum, offsetQ: JsNum, includeQ: Option<string>)
    returns (reply: Reply<CandidatePage>)
    requires UniqueUserIds(users)
    ensures reply.Ok? && reply.status == 200
    ensures var ranked := Ranked(users, cards, userCards, wishes, swipes, me, IncludeSwiped(includeQ));
            var offset := EffectiveOffset(offsetQ);
            reply.body == CandidatePage(Page(ranked, offset, EffectiveLimit(limitQ)), |ranked|, offset)
  {
    var limit := EffectiveLimit(limitQ);
    var offset := EffectiveOffset(offsetQ);
    var withSwiped := IncludeSwiped(includeQ);
    var candidates := CollectCandidates(users, cards, userCards, wishes, swipes, me, withSwiped);
    candidates := SortByScore(candidates);          // Array.prototype.sort, stable
    assert candidates == Ranked(users, cards, userCards, wishes, swipes, me, withSwiped);
    var total := |candidates|;
    var paged := Page(candidates, offset, limit);   // candidates.slice(offset, offset + limit)
    reply := Ok(200, CandidatePage(paged, total, offset));
  }
}
