/**
 * The read side and the checks of backend/routes/messages.js: the `ensureMatchMember`
 * guard, `GET /messages/:matchId`, the text check of `POST /messages/:matchId`, and the
 * `Message.create` call it ends in, both as written and as intended. The handlers that
 * append are `Backend.Store.PostMessageAsWritten` and `Backend.Store.PostMessage`.
 */
module MessageRoutes {
  import opened Common
  import opened Tables
  import opened Text
  import MatchRoutes

  /**
   * `Match.findOne({ where: { id: matchId, [Op.or]: [{ user1Id }, { user2Id }] } })`: a match
   * with that id in which the caller takes part. An unknown id and a match of other users
   * give the same none, which the guard answers with 403.
   */
  function MemberMatch(matches: seq<Match>, matchId: int, me: int): (r: Option<Match>)
    ensures r.Some? ==> r.value in matches && r.value.id == matchId && InMatch(r.value, me)
    ensures r.None? <==> forall m :: m in matches ==> !(m.id == matchId && InMatch(m, me))
  {
    if matches == [] then None
    else if matches[0].id == matchId && InMatch(matches[0], me) then Some(matches[0])
    else
      var r := MemberMatch(matches[1..], matchId, me);
      assert forall m :: m in matches ==> m == matches[0] || m in matches[1..];
      r
  }

  /** `GET /messages/:matchId` (lines 34-48) behind `ensureMatchMember` (lines 11-28). */
  function GetThread(matches: seq<Match>, messages: seq<Message>, matchId: int, me: int): (r: Reply<seq<Message>>)
    ensures r == Err(403) <==> forall m :: m in matches ==> !(m.id == matchId && InMatch(m, me))
    ensures r.Err? ==> r.status == 403
    ensures r.Ok? ==> r.status == 200 && forall x :: x in r.body <==> x in messages && x.matchId == matchId
  {
    if MemberMatch(matches, matchId, me).None? then Err(403)
    else Ok(200, MatchRoutes.MessagesOf(messages, matchId))
  }

  /** The thread comes oldest first when `createdAt` grows along the table. */
  lemma GetThreadOldestFirst(matches: seq<Match>, messages: seq<Message>, matchId: int, me: int)
    requires IncreasingBy(messages, MessageCreated)
    ensures GetThread(matches, messages, matchId, me).Ok? ==>
      IncreasingBy(GetThread(matches, messages, matchId, me).body, MessageCreated)
  {
    FilterKeepsIncreasing(messages, (x: Message) => x.matchId == matchId, MessageCreated);
  }

  /**
   * `if (!text || !text.trim())` then `text.trim()` (lines 59-66): none for a missing, empty
   * or all-white-space text, otherwise a text that is not empty. `CleanTextTrims` says
   * which text.
   */
  function CleanText(text: Option<string>): (r: Option<string>)
    ensures r.None? <==> text.None? || IsBlank(text.value)
    ensures r.Some? ==> r.value != ""
  {
    match text
    case None => None
    case Some(s) =>
      TrimEmptyIffBlank(s);
      if s == "" || Trim(s) == "" then None else Some(Trim(s))
  }

  /** The text kept is the trimmed text, and it trims to itself, so cleaning again changes nothing. */
  lemma CleanTextTrims(text: Option<string>)
    ensures CleanText(text).Some? ==> CleanText(text).value == Trim(text.value) && Trim(CleanText(text).value) == CleanText(text).value
    ensures CleanText(CleanText(text)) == CleanText(text)
  {
    if text.Some? {
      TrimIdempotent(text.value);
      if CleanText(text).Some? {
        TrimEmptyIffBlank(CleanText(text).value);
      }
    }
  }

  /**
   * The attributes handed to `Message.create`. A column the call does not set is none
   * (SQL null). The match id is always set by the route.
   */
  datatype MessageAttrs = MessageAttrs(matchId: int, fromUserId: Option<int>, toUserId: Option<int>, text: Option<string>)

  /**
   * `Message.create({ matchId, senderId, text })` as written (lines 63-67). The Message
   * model (models/Message.js:2-15) has no `senderId` column, so Sequelize drops that key,
   * and the call sets neither `fromUserId` nor `toUserId`.
   */
  function WrittenAttrs(matchId: int, me: int, text: string): MessageAttrs
  {
    MessageAttrs(matchId, None, None, Some(text))
  }

  /**
   * The insert the route evidently intends: the caller as sender and the other participant
   * as receiver, the columns the model declares and that backend/scripts/seed.js:48-49
   * fills in and the chat screen reads (`item.fromUserId`).
   */
  function IntendedAttrs(m: Match, me: int, text: string): MessageAttrs
  {
    MessageAttrs(m.id, Some(me), Some(MatchRoutes.OtherId(m, me)), Some(text))
  }

  /**
   * Sequelize `create` on the Message model: the `allowNull: false` validation of `text`,
   * `fromUserId` and `toUserId` (models/Message.js:3-14) rejects the row, or the row is
   * stored with the next id and time and exactly the attributes given.
   */
  function Create(a: MessageAttrs, id: int, clock: nat): (r: Option<Message>)
    ensures r.None? <==> a.text.None? || a.fromUserId.None? || a.toUserId.None?
    ensures r.Some? ==>
      && r.value.id == id && r.value.createdAt == clock && r.value.matchId == a.matchId
      && Some(r.value.fromUserId) == a.fromUserId && Some(r.value.toUserId) == a.toUserId
      && Some(r.value.text) == a.text
  {
    match (a.fromUserId, a.toUserId, a.text)
    case (Some(from), Some(to), Some(t)) => Some(Message(id, a.matchId, from, to, t, clock))
    case _ => None
  }

  /** As written, every insert the route attempts fails validation, whatever the caller sends. */
  lemma WrittenCreateAlwaysFails(matchId: int, me: int, text: string, id: int, clock: nat)
    ensures Create(WrittenAttrs(matchId, me, text), id, clock).None?
  {
  }

  /**
   * The intended insert succeeds for a participant of a match between two distinct users:
   * the row goes from the caller to the other participant, both members of the match.
   */
  lemma IntendedCreateSucceeds(m: Match, me: int, text: string, id: int, clock: nat)
    requires InMatch(m, me) && m.user1Id != m.user2Id
    ensures var r := Create(IntendedAttrs(m, me, text), id, clock);
      && r == Some(Message(id, m.id, me, MatchRoutes.OtherId(m, me), text, clock))
      && r.value.toUserId != me && InMatch(m, r.value.toUserId)
  {
  }
}
