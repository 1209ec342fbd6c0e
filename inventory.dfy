/**
 * The lookups and value rules of backend/routes/cards.js and backend/routes/wishlist.js:
 * the caller's collection and wishlist newest first, finding a row the caller owns, the
 * card catalogue's find-or-create, and the defaults taken from the request body. The
 * updates themselves are methods of `Backend.Store`.
 */
module Inventory {
  import opened Common
  import opened Tables
  import opened Text

  /** A copy with its catalogue card (`include: [{ model: Card }]`, a left join). */
  datatype OwnedCard = OwnedCard(copy: UserCard, card: Option<Card>)

  /** A wishlist entry with its catalogue card. */
  datatype WishedCard = WishedCard(entry: WishlistEntry, card: Option<Card>)

  function AttachToCopies(rows: seq<UserCard>, cards: seq<Card>): (r: seq<OwnedCard>)
    ensures |r| == |rows|
    ensures forall i :: 0 <= i < |rows| ==> r[i] == OwnedCard(rows[i], FindCard(cards, rows[i].cardId))
  {
    if rows == [] then [] else [OwnedCard(rows[0], FindCard(cards, rows[0].cardId))] + AttachToCopies(rows[1..], cards)
  }

  function AttachToWishes(rows: seq<WishlistEntry>, cards: seq<Card>): (r: seq<WishedCard>)
    ensures |r| == |rows|
    ensures forall i :: 0 <= i < |rows| ==> r[i] == WishedCard(rows[i], FindCard(cards, rows[i].cardId))
  {
    if rows == [] then [] else [WishedCard(rows[0], FindCard(cards, rows[0].cardId))] + AttachToWishes(rows[1..], cards)
  }

  function CopiesOf(userCards: seq<UserCard>, me: int): (r: seq<UserCard>)
    ensures forall c :: c in r <==> c in userCards && c.userId == me
  {
    Filter(userCards, (c: UserCard) => c.userId == me)
  }

  function WishesOf(wishes: seq<WishlistEntry>, me: int): (r: seq<WishlistEntry>)
    ensures forall w :: w in r <==> w in wishes && w.userId == me
  {
    Filter(wishes, (w: WishlistEntry) => w.userId == me)
  }

  /** `GET /cards/my` (cards.js:10-25): the caller's copies, `ORDER BY createdAt DESC`. */
  function MyCards(userCards: seq<UserCard>, cards: seq<Card>, me: int): (r: seq<OwnedCard>)
    ensures |r| == |CopiesOf(userCards, me)|
  {
    AttachToCopies(Reverse(CopiesOf(userCards, me)), cards)
  }

  /** `GET /wishlist` (wishlist.js:11-24): the caller's entries, `ORDER BY createdAt DESC`. */
  function MyWishlist(wishes: seq<WishlistEntry>, cards: seq<Card>, me: int): (r: seq<WishedCard>)
    ensures |r| == |WishesOf(wishes, me)|
  {
    AttachToWishes(Reverse(WishesOf(wishes, me)), cards)
  }

  /** `GET /cards/my` lists exactly the caller's copies, each with its card. */
  lemma MyCardsContents(userCards: seq<UserCard>, cards: seq<Card>, me: int)
    ensures forall e :: e in MyCards(userCards, cards, me) ==>
      e.copy in userCards && e.copy.userId == me && e.card == FindCard(cards, e.copy.cardId)
    ensures forall c :: c in userCards && c.userId == me ==>
      OwnedCard(c, FindCard(cards, c.cardId)) in MyCards(userCards, cards, me)
  {
    var l := Reverse(CopiesOf(userCards, me));
    var r := AttachToCopies(l, cards);
    assert r == MyCards(userCards, cards, me);
    ReverseKeepsElements(CopiesOf(userCards, me));
    forall e | e in r ensures e.copy in userCards && e.copy.userId == me && e.card == FindCard(cards, e.copy.cardId) {
      var i :| 0 <= i < |r| && r[i] == e;
      assert l[i] in l;
    }
    forall c | c in userCards && c.userId == me ensures OwnedCard(c, FindCard(cards, c.cardId)) in r {
      var i :| 0 <= i < |l| && l[i] == c;
      assert r[i] == OwnedCard(c, FindCard(cards, c.cardId));
    }
  }

  /** The collection comes newest first when `createdAt` grows along the table. */
  lemma MyCardsNewestFirst(userCards: seq<UserCard>, cards: seq<Card>, me: int)
    requires IncreasingBy(userCards, CopyCreated)
    ensures forall i, j :: 0 <= i < j < |MyCards(userCards, cards, me)| ==>
      MyCards(userCards, cards, me)[i].copy.createdAt > MyCards(userCards, cards, me)[j].copy.createdAt
  {
    FilterKeepsIncreasing(userCards, (c: UserCard) => c.userId == me, CopyCreated);
    ReverseOfIncreasing(CopiesOf(userCards, me), CopyCreated);
  }

  /** `GET /wishlist` lists exactly the caller's entries, each with its card. */
  lemma MyWishlistContents(wishes: seq<WishlistEntry>, cards: seq<Card>, me: int)
    ensures forall e :: e in MyWishlist(wishes, cards, me) ==>
      e.entry in wishes && e.entry.userId == me && e.card == FindCard(cards, e.entry.cardId)
    ensures forall w :: w in wishes && w.userId == me ==>
      WishedCard(w, FindCard(cards, w.cardId)) in MyWishlist(wishes, cards, me)
  {
    var l := Reverse(WishesOf(wishes, me));
    var r := AttachToWishes(l, cards);
    assert r == MyWishlist(wishes, cards, me);
    ReverseKeepsElements(WishesOf(wishes, me));
    forall e | e in r ensures e.entry in wishes && e.entry.userId == me && e.card == FindCard(cards, e.entry.cardId) {
      var i :| 0 <= i < |r| && r[i] == e;
      assert l[i] in l;
    }
    forall w | w in wishes && w.userId == me ensures WishedCard(w, FindCard(cards, w.cardId)) in r {
      var i :| 0 <= i < |l| && l[i] == w;
      assert r[i] == WishedCard(w, FindCard(cards, w.cardId));
    }
  }

  /** The wishlist comes newest first when `createdAt` grows along the table. */
  lemma MyWishlistNewestFirst(wishes: seq<WishlistEntry>, cards: seq<Card>, me: int)
    requires IncreasingBy(wishes, WishCreated)
    ensures forall i, j :: 0 <= i < j < |MyWishlist(wishes, cards, me)| ==>
      MyWishlist(wishes, cards, me)[i].entry.createdAt > MyWishlist(wishes, cards, me)[j].entry.createdAt
  {
    FilterKeepsIncreasing(wishes, (w: WishlistEntry) => w.userId == me, WishCreated);
    ReverseOfIncreasing(WishesOf(wishes, me), WishCreated);
  }

  /** `UserCard.findOne({ where: { id, UserId } })` (cards.js:74, 97), as the position of the first such row. */
  function OwnedCopyAt(userCards: seq<UserCard>, id: int, me: int): (r: Option<nat>)
    ensures r.Some? ==> r.value < |userCards| && userCards[r.value].id == id && userCards[r.value].userId == me
    ensures r.None? <==> forall c :: c in userCards ==> !(c.id == id && c.userId == me)
  {
    if userCards == [] then None
    else if userCards[0].id == id && userCards[0].userId == me then Some(0)
    else
      var r := OwnedCopyAt(userCards[1..], id, me);
      assert forall c :: c in userCards ==> c == userCards[0] || c in userCards[1..];
      if r.None? then None else Some(r.value + 1)
  }

  /** `Wishlist.findOne({ where: { id, UserId } })` (wishlist.js:88-90), as the position of the first such row. */
  function OwnWishAt(wishes: seq<WishlistEntry>, id: int, me: int): (r: Option<nat>)
    ensures r.Some? ==> r.value < |wishes| && wishes[r.value].id == id && wishes[r.value].userId == me
    ensures r.None? <==> forall w :: w in wishes ==> !(w.id == id && w.userId == me)
  {
    if wishes == [] then None
    else if wishes[0].id == id && wishes[0].userId == me then Some(0)
    else
      var r := OwnWishAt(wishes[1..], id, me);
      assert forall w :: w in wishes ==> w == wishes[0] || w in wishes[1..];
      if r.None? then None else Some(r.value + 1)
  }

  /** `Wishlist.findOne({ where: { UserId, CardId } })` (wishlist.js:60-62). */
  function FindWish(wishes: seq<WishlistEntry>, me: int, cardId: int): (r: Option<WishlistEntry>)
    ensures r.Some? ==> r.value in wishes && r.value.userId == me && r.value.cardId == cardId
    ensures r.None? <==> forall w :: w in wishes ==> !(w.userId == me && w.cardId == cardId)
  {
    if wishes == [] then None
    else if wishes[0].userId == me && wishes[0].cardId == cardId then Some(wishes[0])
    else
      var r := FindWish(wishes[1..], me, cardId);
      assert forall w :: w in wishes ==> w == wishes[0] || w in wishes[1..];
      r
  }

  /**
   * `v?.trim() || null` on a string field of the body: absent for a missing or blank value,
   * otherwise not empty. `TrimOrNullTrims` says which text.
   */
  function TrimOrNull(v: Option<string>): (r: Option<string>)
    ensures r.None? <==> v.None? || IsBlank(v.value)
    ensures r.Some? ==> r.value != ""
  {
    match v
    case None => None
    case Some(s) =>
      TrimEmptyIffBlank(s);
      if Trim(s) == "" then None else Some(Trim(s))
  }

  /** A value kept is the trimmed value, and applying the rule twice changes nothing. */
  lemma TrimOrNullTrims(v: Option<string>)
    ensures TrimOrNull(v).Some? ==> TrimOrNull(v).value == Trim(v.value)
    ensures TrimOrNull(TrimOrNull(v)) == TrimOrNull(v)
  {
    if v.Some? {
      TrimIdempotent(v.value);
      if TrimOrNull(v).Some? {
        TrimEmptyIffBlank(TrimOrNull(v).value);
      }
    }
  }

  /** `v || null` on a string field of the body: the empty string counts as absent. */
  function OrNull(v: Option<string>): (r: Option<string>)
    ensures r.None? <==> v.None? || v.value == ""
    ensures r.Some? ==> r == v
  {
    if v.Some? && v.value != "" then v else None
  }

  /** `Number.isInteger(priority) ? priority : 3` (wishlist.js:68). */
  function Priority(v: JsValue): (r: int)
    ensures v.JsInt? ==> r == v.n
    ensures !v.JsInt? ==> r == 3
  {
    if v.JsInt? then v.n else 3
  }

  /** `typeof isForTrade === "boolean" ? isForTrade : row.isForTrade` (cards.js:77-79). */
  function TradeFlag(current: bool, v: JsValue): (r: bool)
    ensures v.JsBool? ==> r == v.b
    ensures !v.JsBool? ==> r == current
  {
    if v.JsBool? then v.b else current
  }

  /** `Card.findOne` on the full identity `(name, setName, rarity)`, the lookup half of `findOrCreate`. */
  function FindByIdentity(cards: seq<Card>, name: string, setName: Option<string>, rarity: Option<string>): (r: Option<Card>)
    ensures r.Some? ==> r.value in cards && r.value.name == name && r.value.setName == setName && r.value.rarity == rarity
    ensures r.None? <==> forall c :: c in cards ==> !(c.name == name && c.setName == setName && c.rarity == rarity)
  {
    if cards == [] then None
    else if cards[0].name == name && cards[0].setName == setName && cards[0].rarity == rarity then Some(cards[0])
    else
      var r := FindByIdentity(cards[1..], name, setName, rarity);
      assert forall c :: c in cards ==> c == cards[0] || c in cards[1..];
      r
  }

  /** `Card.findOne({ where: { name, setName } })` (wishlist.js:46-48): rarity plays no part. */
  function FindByNameAndSet(cards: seq<Card>, name: string, setName: Option<string>): (r: Option<Card>)
    ensures r.Some? ==> r.value in cards && r.value.name == name && r.value.setName == setName
    ensures r.None? <==> forall c :: c in cards ==> !(c.name == name && c.setName == setName)
  {
    if cards == [] then None
    else if cards[0].name == name && cards[0].setName == setName then Some(cards[0])
    else
      var r := FindByNameAndSet(cards[1..], name, setName);
      assert forall c :: c in cards ==> c == cards[0] || c in cards[1..];
      r
  }

  /** A catalogue and the card chosen or created in it. */
  datatype Catalogued = Catalogued(cards: seq<Card>, card: Card)

  /**
   * `Card.findOrCreate({ where: { name, setName, rarity } })` (cards.js:39-45): the first
   * card with that identity, or a new one with id `newId` appended to the catalogue.
   */
  function FindOrCreate(cards: seq<Card>, name: string, setName: Option<string>, rarity: Option<string>, newId: int): (r: Catalogued)
    ensures r.card in r.cards
    ensures r.card.name == name && r.card.setName == setName && r.card.rarity == rarity
    ensures r.cards == cards || r.cards == cards + [r.card]
    ensures r.cards != cards <==> FindByIdentity(cards, name, setName, rarity).None?
    ensures r.cards != cards ==> r.card.id == newId
  {
    match FindByIdentity(cards, name, setName, rarity)
    case Some(c) => Catalogued(cards, c)
    case None => Catalogued(cards + [Card(newId, name, setName, rarity)], Card(newId, name, setName, rarity))
  }

  /** A card found in a catalogue is still the one found after more cards are appended. */
  lemma {:induction false} FindByIdentityAppend(cards: seq<Card>, more: seq<Card>, name: string, setName: Option<string>, rarity: Option<string>)
    requires FindByIdentity(cards, name, setName, rarity).Some?
    ensures FindByIdentity(cards + more, name, setName, rarity) == FindByIdentity(cards, name, setName, rarity)
  {
    if cards[0].name == name && cards[0].setName == setName && cards[0].rarity == rarity {
      assert (cards + more)[0] == cards[0];
    } else {
      FindByIdentityAppend(cards[1..], more, name, setName, rarity);
      assert (cards + more)[1..] == cards[1..] + more;
    }
  }

  /**
   * Adding the same identity again reuses the card: after find-or-create, any catalogue
   * that extends the result finds that same card and creates nothing.
   */
  lemma RepeatedAddReusesCard(cards: seq<Card>, more: seq<Card>, name: string, setName: Option<string>,
                              rarity: Option<string>, id1: int, id2: int)
    ensures FindOrCreate(FindOrCreate(cards, name, setName, rarity, id1).cards + more, name, setName, rarity, id2)
         == Catalogued(FindOrCreate(cards, name, setName, rarity, id1).cards + more, FindOrCreate(cards, name, setName, rarity, id1).card)
  {
    var first := FindOrCreate(cards, name, setName, rarity, id1);
    if FindByIdentity(cards, name, setName, rarity).None? {
      assert FindByIdentity(first.cards, name, setName, rarity).Some? by {
        assert first.card in first.cards;
      }
    }
    FindByIdentityAppend(first.cards, more, name, setName, rarity);
    var found := FindByIdentity(first.cards, name, setName, rarity).value;
    if FindByIdentity(cards, name, setName, rarity).Some? {
      assert found == first.card;
    } else {
      assert found !in cards;
      assert found in cards + [first.card];
    }
  }

  /**
   * How `POST /wishlist/add` picks its card (wishlist.js:38-57): a truthy `cardId` names a
   * card by key, and an unknown key is refused; otherwise a `name` is required, and the
   * card is found by `(name, setName || null)` or created with `rarity || null`.
   */
  datatype WishCard = Chosen(cards: seq<Card>, card: Card) | UnknownCard | NameMissing

  function ChooseWishCard(cards: seq<Card>, cardId: Option<int>, name: Option<string>, setName: Option<string>,
                          rarity: Option<string>, newId: int): (r: WishCard)
    ensures r.Chosen? ==> r.card in r.cards && (r.cards == cards || (r.cards == cards + [r.card] && r.card.id == newId))
    ensures cardId.Some? && cardId.value != 0 ==>
      (r.UnknownCard? <==> FindCard(cards, cardId.value).None?) &&
      (r.Chosen? ==> r.cards == cards && r.card in cards && r.card.id == cardId.value)
    ensures !(cardId.Some? && cardId.value != 0) && (name.None? || name.value == "") ==> r == NameMissing
    ensures !(cardId.Some? && cardId.value != 0) && name.Some? && name.value != "" ==>
      && r.Chosen? && r.card in r.cards && r.card.name == name.value && r.card.setName == OrNull(setName)
      && (r.cards == cards || (r.cards == cards + [r.card] && r.card == Card(newId, name.value, OrNull(setName), OrNull(rarity))))
      && (r.cards != cards <==> FindByNameAndSet(cards, name.value, OrNull(setName)).None?)
  {
    if cardId.Some? && cardId.value != 0 then
      match FindCard(cards, cardId.value)
      case None => UnknownCard
      case Some(c) => Chosen(cards, c)
    else if name.None? || name.value == "" then NameMissing
    else
      match FindByNameAndSet(cards, name.value, OrNull(setName))
      case Some(c) => Chosen(cards, c)
      case None =>
        var c := Card(newId, name.value, OrNull(setName), OrNull(rarity));
        Chosen(cards + [c], c)
  }

  /** The name path of `POST /wishlist/add` picks the same card whatever rarity the request gives. */
  lemma WishCardIgnoresRarity(cards: seq<Card>, name: string, setName: Option<string>, r1: Option<string>, r2: Option<string>, newId: int)
    requires name != ""
    requires FindByNameAndSet(cards, name, OrNull(setName)).Some?
    ensures ChooseWishCard(cards, None, Some(name), setName, r1, newId) == ChooseWishCard(cards, None, Some(name), setName, r2, newId)
    ensures ChooseWishCard(cards, None, Some(name), setName, r1, newId).cards == cards
  {
  }
}
