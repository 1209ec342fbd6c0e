/**
 * The rows of the backend's tables (users, cards, user_cards, wishlists, swipes,
 * matches, messages), the shapes the routes answer with, and lookups by key.
 */
module Tables {
  import opened Common

  datatype User = User(id: int, username: string, city: Option<string>, avatarUrl: Option<string>)

  /** A catalogue card: one identity per (name, set, rarity) as the routes create them. */
  datatype Card = Card(id: int, name: string, setName: Option<string>, rarity: Option<string>)

  /** One copy of a card owned by a user. */
  datatype UserCard = UserCard(id: int, userId: int, cardId: int, isForTrade: bool,
                               photoUrl: Option<string>, createdAt: nat)

  datatype WishlistEntry = WishlistEntry(id: int, userId: int, cardId: int, priority: int, createdAt: nat)

  datatype SwipeType = Like | Dislike

  datatype Swipe = Swipe(id: int, fromUserId: int, toUserId: int, kind: SwipeType)

  /** A match between two users, stored with `user1Id = min` and `user2Id = max` of the pair. */
  datatype Match = Match(id: int, user1Id: int, user2Id: int, createdAt: nat)

  /** A chat message, with the columns the Message model declares (models/Message.js:2-15). */
  datatype Message = Message(id: int, matchId: int, fromUserId: int, toUserId: int, text: string, createdAt: nat)

  /** What a route handler answers: a 2xx status with a body, or an error status. */
  datatype Reply<T> = Ok(status: int, body: T) | Err(status: int)

  /** The user fields a candidate carries (`attributes: ["id", "username", "city"]`). */
  datatype UserBrief = UserBrief(id: int, username: string, city: Option<string>)

  function Brief(u: User): UserBrief
  {
    UserBrief(u.id, u.username, u.city)
  }

  /**
   * A card as the candidate list shows it: the card's columns, plus the copy's photo
   * and row id when it comes from another user's collection.
   */
  datatype CardView = CardView(id: int, name: string, setName: Option<string>, rarity: Option<string>,
                               photoUrl: Option<string>, userCardId: Option<int>)

  /** JavaScript `!!c.photoUrl`: a photo is present and is not the empty string. */
  predicate HasPhoto(c: CardView)
  {
    c.photoUrl.Some? && c.photoUrl.value != ""
  }

  datatype Candidate = Candidate(user: UserBrief, theyHaveINeed: seq<CardView>,
                                 theyNeedIHave: seq<CardView>, score: int)

  // The keys the tables are ordered and numbered by.
  function CardKey(c: Card): int { c.id }
  function CopyKey(c: UserCard): int { c.id }
  function WishKey(w: WishlistEntry): int { w.id }
  function SwipeKey(s: Swipe): int { s.id }
  function MatchKey(m: Match): int { m.id }
  function MessageKey(x: Message): int { x.id }
  function CopyCreated(c: UserCard): int { c.createdAt }
  function WishCreated(w: WishlistEntry): int { w.createdAt }
  function MatchCreated(m: Match): int { m.createdAt }
  function MessageCreated(x: Message): int { x.createdAt }

  /** The primary key of the users table. */
  predicate UniqueUserIds(users: seq<User>)
  {
    forall i, j :: 0 <= i < j < |users| ==> users[i].id != users[j].id
  }

  /** `User.findByPk(id)` (the first row with that id). */
  function FindUser(users: seq<User>, id: int): (r: Option<User>)
    ensures r.Some? ==> r.value in users && r.value.id == id
    ensures r.None? ==> forall i :: 0 <= i < |users| ==> users[i].id != id
    ensures UniqueUserIds(users) ==> forall u :: u in users && u.id == id ==> r == Some(u)
  {
    if users == [] then None
    else if users[0].id == id then Some(users[0])
    else
      var r := FindUser(users[1..], id);
      assert forall u :: u in users && u != users[0] ==> u in users[1..];
      r
  }

  /** `Card.findByPk(id)`. */
  function FindCard(cards: seq<Card>, id: int): (r: Option<Card>)
    ensures r.Some? ==> r.value in cards && r.value.id == id
    ensures r.None? ==> forall i :: 0 <= i < |cards| ==> cards[i].id != id
  {
    if cards == [] then None
    else if cards[0].id == id then Some(cards[0])
    else FindCard(cards[1..], id)
  }

  /** `Match.findByPk(id)`. */
  function FindMatch(matches: seq<Match>, id: int): (r: Option<Match>)
    ensures r.Some? ==> r.value in matches && r.value.id == id
    ensures r.None? ==> forall i :: 0 <= i < |matches| ==> matches[i].id != id
  {
    if matches == [] then None
    else if matches[0].id == id then Some(matches[0])
    else FindMatch(matches[1..], id)
  }

  /** The user is one of the two participants of the match. */
  predicate InMatch(m: Match, userId: int)
  {
    m.user1Id == userId || m.user2Id == userId
  }
}
