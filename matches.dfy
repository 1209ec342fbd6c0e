/**
 * The read routes of backend/routes/matches.js: the caller's matches newest first with the
 * other user and the last message, one match's detail, and one match's messages. The
 * tables are given in insertion order; `ORDER BY createdAt` is that order (ascending) or
 * its reverse (descending), which is the sort itself whenever `createdAt` grows along the
 * table, as the store keeps it.
 */
module MatchRoutes {
  import opened Common
  import opened Tables

  datatype LastMessage = LastMessage(id: int, text: string, createdAt: nat)

  /** One element of `GET /matches`. */
  datatype MatchEntry = MatchEntry(id: int, otherUser: Option<User>, lastMessage: Option<LastMessage>)

  /** The body of `GET /matches/:matchId`. */
  datatype MatchDetail = MatchDetail(id: int, otherUser: Option<User>)

  /** `m.user1Id === userId ? m.user2Id : m.user1Id`: the participant who is not the caller. */
  function OtherId(m: Match, me: int): (r: int)
    ensures InMatch(m, me) ==> InMatch(m, r)
    ensures InMatch(m, me) && m.user1Id != m.user2Id ==> r != me
  {
    if m.user1Id == me then m.user2Id else m.user1Id
  }

  /** The matches the caller takes part in, in table order. */
  function Mine(matches: seq<Match>, me: int): (r: seq<Match>)
    ensures forall m :: m in r <==> m in matches && InMatch(m, me)
  {
    Filter(matches, (m: Match) => InMatch(m, me))
  }

  /** The messages of one match, in table order. */
  function MessagesOf(messages: seq<Message>, matchId: int): (r: seq<Message>)
    ensures forall x :: x in r <==> x in messages && x.matchId == matchId
  {
    Filter(messages, (x: Message) => x.matchId == matchId)
  }

  /** `Message.findOne({ where: { matchId }, order: [["createdAt", "DESC"]] })`, reduced to id, text and time. */
  function Latest(msgs: seq<Message>): Option<LastMessage>
  {
    if msgs == [] then None
    else
      var x := msgs[|msgs| - 1];
      Some(LastMessage(x.id, x.text, x.createdAt))
  }

  function Describe(m: Match, users: seq<User>, messages: seq<Message>, me: int): MatchEntry
  {
    MatchEntry(m.id, FindUser(users, OtherId(m, me)), Latest(MessagesOf(messages, m.id)))
  }

  function DescribeAll(ms: seq<Match>, users: seq<User>, messages: seq<Message>, me: int): (r: seq<MatchEntry>)
    ensures |r| == |ms|
    ensures forall i :: 0 <= i < |ms| ==> r[i] == Describe(ms[i], users, messages, me)
  {
    if ms == [] then [] else [Describe(ms[0], users, messages, me)] + DescribeAll(ms[1..], users, messages, me)
  }

  /** `GET /matches` (lines 9-40). */
  function ListMatches(matches: seq<Match>, users: seq<User>, messages: seq<Message>, me: int): (r: seq<MatchEntry>)
    ensures |r| == |Mine(matches, me)|
  {
    DescribeAll(Reverse(Mine(matches, me)), users, messages, me)
  }

  /** Every entry of `GET /matches` describes one of the caller's matches: its id, the other participant and its last message. */
  lemma ListedAreMine(matches: seq<Match>, users: seq<User>, messages: seq<Message>, me: int)
    ensures forall e :: e in ListMatches(matches, users, messages, me) ==>
      exists m :: m in matches && InMatch(m, me) && e == Describe(m, users, messages, me)
  {
    var l := Reverse(Mine(matches, me));
    var r := DescribeAll(l, users, messages, me);
    assert r == ListMatches(matches, users, messages, me);
    ReverseKeepsElements(Mine(matches, me));
    forall e | e in r
      ensures exists m :: m in matches && InMatch(m, me) && e == Describe(m, users, messages, me)
    {
      var i :| 0 <= i < |r| && r[i] == e;
      assert l[i] in l;
    }
  }

  /** Each of the caller's matches has its entry in `GET /matches`. */
  lemma MineAreListed(matches: seq<Match>, users: seq<User>, messages: seq<Message>, me: int)
    ensures forall m :: m in matches && InMatch(m, me) ==>
      Describe(m, users, messages, me) in ListMatches(matches, users, messages, me)
  {
    var l := Reverse(Mine(matches, me));
    var r := DescribeAll(l, users, messages, me);
    assert r == ListMatches(matches, users, messages, me);
    ReverseKeepsElements(Mine(matches, me));
    forall m | m in matches && InMatch(m, me)
      ensures Describe(m, users, messages, me) in r
    {
      var i :| 0 <= i < |l| && l[i] == m;
      assert r[i] == Describe(m, users, messages, me);
    }
  }

  /**
   * `GET /matches` lists the caller's matches newest first: when `createdAt` grows along
   * the table, the matches behind the entries are in strictly decreasing `createdAt`.
   */
  lemma ListMatchesNewestFirst(matches: seq<Match>, users: seq<User>, messages: seq<Message>, me: int)
    requires IncreasingBy(matches, MatchCreated)
    ensures DecreasingBy(Reverse(Mine(matches, me)), MatchCreated)
    ensures forall i :: 0 <= i < |ListMatches(matches, users, messages, me)| ==>
      ListMatches(matches, users, messages, me)[i].id == Reverse(Mine(matches, me))[i].id
  {
    FilterKeepsIncreasing(matches, (m: Match) => InMatch(m, me), MatchCreated);
    ReverseOfIncreasing(Mine(matches, me), MatchCreated);
  }

  /**
   * The last message of a match is none exactly when the match has no messages, and
   * otherwise one of its messages whose `createdAt` no other message of it exceeds.
   */
  lemma LatestIsNewest(messages: seq<Message>, matchId: int)
    requires IncreasingBy(messages, MessageCreated)
    ensures Latest(MessagesOf(messages, matchId)).None? <==> forall x :: x in messages ==> x.matchId != matchId
    ensures Latest(MessagesOf(messages, matchId)).Some? ==>
      exists x :: x in messages && x.matchId == matchId
        && Latest(MessagesOf(messages, matchId)) == Some(LastMessage(x.id, x.text, x.createdAt))
        && forall y :: y in messages && y.matchId == matchId ==> y.createdAt <= x.createdAt
  {
    var ms := MessagesOf(messages, matchId);
    FilterKeepsIncreasing(messages, (x: Message) => x.matchId == matchId, MessageCreated);
    if ms != [] {
      var last := ms[|ms| - 1];
      assert last in ms;
      forall y | y in messages && y.matchId == matchId ensures y.createdAt <= last.createdAt {
        var k :| 0 <= k < |ms| && ms[k] == y;
        assert k < |ms| - 1 ==> MessageCreated(ms[k]) < MessageCreated(ms[|ms| - 1]);
      }
    }
  }

  /** `GET /matches/:matchId` (lines 43-67): 404 for an unknown match, 403 for a non-participant. */
  function GetMatch(matches: seq<Match>, users: seq<User>, matchId: int, me: int): (r: Reply<MatchDetail>)
    ensures r == Err(404) <==> FindMatch(matches, matchId).None?
    ensures r == Err(403) <==> FindMatch(matches, matchId).Some? && !InMatch(FindMatch(matches, matchId).value, me)
    ensures r.Ok? ==> r.status == 200
    ensures r.Ok? ==> exists m :: m in matches && m.id == matchId && InMatch(m, me)
                       && r.body == MatchDetail(matchId, FindUser(users, OtherId(m, me)))
  {
    match FindMatch(matches, matchId)
    case None => Err(404)
    case Some(m) =>
      if !InMatch(m, me) then Err(403)
      else Ok(200, MatchDetail(m.id, FindUser(users, OtherId(m, me))))
  }

  /**
   * `GET /matches/:matchId/messages` (lines 70-95): the same 404 and 403 answers, then the
   * match's messages.
   */
  function MatchMessages(matches: seq<Match>, messages: seq<Message>, matchId: int, me: int): (r: Reply<seq<Message>>)
    ensures r == Err(404) <==> FindMatch(matches, matchId).None?
    ensures r == Err(403) <==> FindMatch(matches, matchId).Some? && !InMatch(FindMatch(matches, matchId).value, me)
    ensures r.Ok? ==> r.status == 200 && exists m :: m in matches && m.id == matchId && InMatch(m, me)
    ensures r.Ok? ==> forall x :: x in r.body <==> x in messages && x.matchId == matchId
  {
    match FindMatch(matches, matchId)
    case None => Err(404)
    case Some(m) =>
      if !InMatch(m, me) then Err(403)
      else Ok(200, MessagesOf(messages, matchId))
  }

  /** The messages of a match come oldest first when `createdAt` grows along the table. */
  lemma MatchMessagesOldestFirst(matches: seq<Match>, messages: seq<Message>, matchId: int, me: int)
    requires IncreasingBy(messages, MessageCreated)
    ensures MatchMessages(matches, messages, matchId, me).Ok? ==>
      IncreasingBy(MatchMessages(matches, messages, matchId, me).body, MessageCreated)
  {
    FilterKeepsIncreasing(messages, (x: Message) => x.matchId == matchId, MessageCreated);
  }
}
