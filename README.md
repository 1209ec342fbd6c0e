# Trading-card matchmaker backend: a Dafny model

This project models the Express route handlers of a backend where users trade Pokémon cards. Each user keeps:

- a collection of card copies, each marked for trade or not;
- a wishlist of catalogue cards.

The backend's core does four things:

- It ranks the other users worth showing to a viewer (`GET /swipes/candidates`).
- It records likes and dislikes in a write-once swipe ledger.
- It forms a match exactly once when two users like each other.
- It serves the matches, their messages, the collection and the wishlist.

The database is one value of type `Backend.Db`:

- It holds seven tables: users, cards, user cards, wishlist entries, swipes, matches and messages. Each is a sequence in insertion order.
- A counter hands out row ids and a clock hands out `createdAt` values.
- `Backend.Database` is the subset of those values that keeps the store's invariant `Backend.Inv`. The invariant says:
  - ids and times grow along every table;
  - the swipe ledger has at most one swipe per ordered pair and none from a user to themself;
  - matches are stored as `(min, max)` of two users, with at most one per pair;
  - a user wishes for a card at most once;
  - every copy and every wishlist entry names a catalogue card;
  - every message goes between two participants of its match.

`Backend.Store` is the running backend. It is a class whose field `db` has type `Database`, so every route method has to keep the invariant. The state-changing routes are methods of that class:

- `like` and `dislike`;
- add, patch and delete of a collection card;
- add and delete of a wishlist entry;
- posting a message, both as written (always 500) and as intended.

Each answers with a status-tagged `Reply` (200, 201, 400, 403, 404 or 409). Each states its whole new database in terms of the old one.

The read routes are functions of the tables. The candidate ranker is imperative, as in the source:

- `Ranking.CollectCandidates` runs the three loops that fill the candidates Map.
- `Dedupe.DedupeById` is the photo-preferring de-duplication loop.
- The sort is JavaScript's stable `Array.prototype.sort`.

Each of those methods is proved against the declarative specification in `CandidateSpec`. `RankingProps`, `ScoreSort`, `Dedupe` and `Paging` then prove the properties the ranker promises about that specification:

- the viewer is never a candidate, and each eligible user appears exactly once;
- where every listed card comes from;
- the score, the order and the pagination.

Module layout:

| file | module | what |
|---|---|---|
| common.dfy | Common | Option, JavaScript values and truthiness, Filter, Reverse, Distinct, NoDups |
| text.dfy | Text | `String.prototype.trim` and its white-space set |
| tables.dfy | Tables | the row types, `Reply`, lookups by primary key |
| ledger.dfy | Ledger | swipe and match lookups, the match-forming rule of `like`, reciprocity lemmas |
| candidatespec.dfy | CandidateSpec | declarative specification of `GET /swipes/candidates` |
| ranking.dfy | Ranking | the Map-filling loops of the ranker, proved against the specification |
| dedupe.dfy | Dedupe | `dedupeById` as a loop over a map, and what it keeps |
| scoresort.dfy | ScoreSort | the stable descending sort by score, and its uniqueness |
| paging.dfy | Paging | `limit`, `offset`, `include_swiped` and `Array.prototype.slice` |
| rankprops.dfy | RankingProps | properties of the ranked candidates |
| matches.dfy | MatchRoutes | `GET /matches`, `GET /matches/:matchId`, `GET /matches/:matchId/messages` |
| messages.dfy | MessageRoutes | `ensureMatchMember`, `GET /messages/:matchId`, the text check of `POST` and its `Message.create`, as written and as intended |
| inventory.dfy | Inventory | collection and wishlist reads, find-or-create, body-field defaults |
| store.dfy | Backend | the database invariant, one step lemma per update, class `Store` |

Behaviour of the code worth noting:

- The page limit is `Math.min(Number(limit) || 10, 30)`, capped only from above (backend/routes/swipes.js:23). A negative limit therefore reaches `slice` and counts from the end (`Paging.NegativeLimitCountsFromEnd`). `Number` also lets fractions and infinities through: `slice` truncates a fraction toward zero, a limit of plus infinity becomes 30, and minus infinity gives an empty page. The reply echoes the offset as parsed, fraction included (backend/routes/swipes.js:24, 188-190).
- Ownership for direction B counts every copy the viewer holds, whatever its trade flag (backend/routes/swipes.js:36-40).
- `POST /messages/:matchId` cannot store a message as written. It passes `senderId`, which the Message model does not declare, and leaves the model's NOT NULL `fromUserId` and `toUserId` unset (backend/routes/messages.js:63-67; backend/models/Message.js:7-14). Every request past the 403 and 400 checks therefore fails validation and answers 500. `Backend.Store.PostMessageAsWritten` models this; `Backend.Store.PostMessage` models the intended insert, from the caller to the other participant (see Findings).

## Model

| member | source | states |
|---|---|---|
| Backend.Store.Candidates | backend/routes/swipes.js:20-195 | always 200; the body is `slice(offset, offset + limit)` of the ranked candidates at the parsed offset and limit, with `total` the full count and the parsed `offset` echoed |
| Ranking.GetCandidates | backend/routes/swipes.js:20-195 | the route on table values: the reply is the JavaScript slice of the stable score sort of the collected candidates, plus total and offset |
| Ranking.CollectCandidates | backend/routes/swipes.js:29-182 | the three loops over direction A rows, direction B rows and all eligible users, then dedupe and score, give exactly the candidates of the declarative specification, in Map insertion order |
| Ranking.CollectHave | backend/routes/swipes.js:64-101 | after direction A's loop, the Map's key order is the first-seen order of the rows' known users, and each value lists that user's cards in row order |
| Ranking.CollectNeed | backend/routes/swipes.js:106-142 | direction B's loop appends its new users to the key order and pushes its cards onto `theyNeedIHave`, leaving direction A's lists as they were |
| Ranking.FillIn | backend/routes/swipes.js:148-162 | every listed user without an entry gets one with two empty lists, added at the end of the key order |
| Ranking.Finalize | backend/routes/swipes.js:177-182 | each key's entry becomes one candidate, de-duplicated and scored, in key order |
| CandidateSpec.OwnedCardIds | backend/routes/swipes.js:36-40 | each card the viewer holds a copy of, whatever its trade flag, exactly once |
| CandidateSpec.WantedCardIds | backend/routes/swipes.js:43-47 | each card on the viewer's wishlist, exactly once |
| CandidateSpec.SwipedIds | backend/routes/swipes.js:29-33 | exactly the users the viewer has swiped, of either type |
| CandidateSpec.HaveRows | backend/routes/swipes.js:64-73 | direction A's rows, before the `limit: 200` prefix is taken, are eligible users' for-trade copies of wanted cards; none when the viewer wants nothing |
| CandidateSpec.NeedRows | backend/routes/swipes.js:106-114 | direction B's rows, before the `limit: 200` prefix is taken, are eligible users' wishes for cards the viewer owns; none when the viewer owns nothing |
| CandidateSpec.EligibleUsers | backend/routes/swipes.js:148-152 | the fill-in users are everyone but the viewer, minus the swiped users when `include_swiped` is false |
| CandidateSpec.CopyView | backend/routes/swipes.js:55-59 | a copy row yields a card exactly when its catalogue card exists, and that card is in the catalogue |
| CandidateSpec.WishView | backend/routes/swipes.js:55-59 | a wishlist row yields a card exactly when its catalogue card exists, and that card is in the catalogue |
| RankingProps.CandidateUsers | backend/routes/swipes.js:53-162 | the viewer is never a candidate; each candidate id appears once; the ids are exactly the eligible users |
| RankingProps.RankedIdsAreFill | backend/routes/swipes.js:148-184 | the ranked candidate ids are the fill-in users, without repetition |
| RankingProps.FillIdsAreEligible | backend/routes/swipes.js:148-152 | an id is a fill-in id exactly when it is a known user other than the viewer, and not swiped when `include_swiped` is false |
| RankingProps.OrderIsEligible | backend/routes/swipes.js:64-162 | every key of the Map is an eligible user, and every eligible user is a key |
| RankingProps.TotalIsEligibleCount | backend/routes/swipes.js:187-190 | `total` equals the number of eligible users |
| RankingProps.RankedMembers | backend/routes/swipes.js:184 | the sort is a permutation of the Map's candidates |
| RankingProps.RankedOrder | backend/routes/swipes.js:184 | the ranked list is non-increasing in score, and equal scores keep their Map order |
| RankingProps.UnrankedKeyOrder | backend/routes/swipes.js:64-162 | the Map order is direction A's users, then direction B's new users, then the fill-in's new users |
| RankingProps.CandidateScores | backend/routes/swipes.js:177-182 | each candidate's score is twice the length of `theyHaveINeed` plus the length of `theyNeedIHave`, and both lists hold distinct card ids |
| RankingProps.HaveProvenance | backend/routes/swipes.js:64-101 | a `theyHaveINeed` card is on the viewer's wishlist and is a for-trade copy held by that candidate |
| RankingProps.NeedProvenance | backend/routes/swipes.js:106-142 | a `theyNeedIHave` card is one the viewer owns, with any trade flag, and is on the candidate's wishlist |
| RankingProps.HaveCardFromRow | backend/routes/swipes.js:84-100 | each `theyHaveINeed` card comes from a direction A row of that user |
| RankingProps.NeedCardFromRow | backend/routes/swipes.js:125-141 | each `theyNeedIHave` card comes from a direction B row of that user |
| RankingProps.HaveRowProvenance | backend/routes/swipes.js:64-73 | a direction A row with a card comes from a wanted card's for-trade copy held by that user |
| RankingProps.NeedRowProvenance | backend/routes/swipes.js:106-114 | a direction B row with a card comes from that user's wish for a card the viewer owns, and carries no photo and no copy id |
| RankingProps.NoInventoryListsEveryone | backend/routes/swipes.js:49-51 | a viewer with no copies and no wishlist still gets every eligible user, in user order, each with score 0 and empty lists |
| RankingProps.SortKeepsIdsDistinct | backend/routes/swipes.js:184 | the sort keeps the candidates' user ids distinct |
| Dedupe.DedupeById | backend/routes/swipes.js:167-175 | the Map-filling loop returns the declarative de-duplication `Deduped` of its input |
| Dedupe.DedupedContents | backend/routes/swipes.js:167-175 | the result has distinct card ids, the same card ids as the input, and for each id its first copy with a photo, else its first copy |
| Dedupe.Deduped | backend/routes/swipes.js:167-175 | the kept card ids are the input's card ids in first-seen order |
| Dedupe.Preferred | backend/routes/swipes.js:170-171 | the kept copy has a photo exactly when some copy has one, and is the first copy otherwise |
| ScoreSort.SortByScoreIsStableSort | backend/routes/swipes.js:184 | the reference sort is non-increasing in score, keeps equal scores in input order and is a permutation |
| ScoreSort.StableSortIsUnique | backend/routes/swipes.js:184 | any stable descending sort of a list equals the reference sort, so `Array.prototype.sort`'s result is determined |
| ScoreSort.SameScoreOrdersEqual | backend/routes/swipes.js:184 | two non-increasing orders that agree score by score are equal |
| Paging.EffectiveLimit | backend/routes/swipes.js:23 | 10 when the query is missing, non-numeric or 0; plus infinity gives 30; never above 30; a negative value, a fraction or minus infinity passes through |
| Paging.EffectiveOffset | backend/routes/swipes.js:24 | never negative; 0 when missing, non-numeric or minus infinity; a fraction or plus infinity passes through |
| Paging.Add | backend/routes/swipes.js:188 | JavaScript `+` on numbers: NaN exactly when either side is NaN or the sides are opposite infinities, otherwise the sum |
| Paging.Trunc | backend/routes/swipes.js:188 | `ToIntegerOrInfinity` on a finite number: the integer part, truncated toward zero |
| Paging.IncludeSwiped | backend/routes/swipes.js:26 | true when the parameter is absent, otherwise true exactly for `"true"` |
| Paging.JsSlice | backend/routes/swipes.js:188 | `slice` with its arguments truncated, negative indices counting from the end, NaN and minus infinity as the start, plus infinity as the end, clamped to the list |
| Paging.PageWindow | backend/routes/swipes.js:187-188 | for a finite offset and limit that are not negative, the page runs from the integer part of `offset` to the integer part of `offset + limit`, clipped to the list |
| Paging.IntegralPageLength | backend/routes/swipes.js:187-188 | with integral arguments the page is `sorted[offset..offset+limit]` clipped to the list, at most `limit` long and exactly that long when the list reaches |
| Paging.FractionalLimitRoundsDown | backend/routes/swipes.js:188 | at an integral offset, a fractional limit gives the page of its integer part |
| Paging.FractionalOffsetRoundsDown | backend/routes/swipes.js:188 | with an integral limit, a fractional offset gives the page at its integer part |
| Paging.FractionalPartsAddUp | backend/routes/swipes.js:188 | offset 0.5 with limit 0.5 gives one entry, although limit 0 gives none |
| Paging.InfiniteQueries | backend/routes/swipes.js:23-24 | a limit of plus infinity is 30; a limit of minus infinity, or an offset of plus infinity, gives an empty page |
| Paging.PageAtMost30 | backend/routes/swipes.js:187-188 | with the limit parsed as at line 23, a page holds at most 30 candidates when the limit is missing, plus infinity or not negative, fractions included |
| Paging.ConsecutivePagesTile | backend/routes/swipes.js:188 | the pages at `offset` and `offset + limit` together are the page of twice the limit |
| Paging.ConsecutivePagesDisjoint | backend/routes/swipes.js:188 | pages at consecutive offsets share no candidate |
| Paging.NegativeLimitCountsFromEnd | backend/routes/swipes.js:188 | a negative limit `-n` yields all but the last `n` candidates, and the limit parsing passes it through unchanged |
| Backend.Store.Like | backend/routes/swipes.js:200-249 | 400 for a missing or self target and 409 for any existing swipe, both with the store unchanged; otherwise exactly one like is added and the pair's match is reused or created `(min, max)`; the reply carries a match exactly when the target already liked the caller |
| Backend.Store.Dislike | backend/routes/swipes.js:254-277 | the same 400 and 409 answers; otherwise exactly one dislike is added and no match is touched |
| Ledger.MatchesAfterLike | backend/routes/swipes.js:218-237 | the matches table grows by one `(min, max)` match exactly when the reverse like exists and the pair has no match |
| Ledger.MatchOfLike | backend/routes/swipes.js:218-237 | a like yields a match exactly when the reverse like exists; it is in the new table, orders `user1Id < user2Id`, and is the existing match when there is one |
| Ledger.FindSwipe | backend/routes/swipes.js:209-214 | the lookup finds a swipe of the pair, of either type, exactly when one exists |
| Ledger.FindMatchPair | backend/routes/swipes.js:228-231 | the lookup finds a match of the normalised pair exactly when one exists |
| Ledger.LikeKeepsReciprocal | backend/routes/swipes.js:216-237 | after a like, matches still correspond exactly to pairs of mutual likes |
| Ledger.DislikeKeepsReciprocal | backend/routes/swipes.js:266-270 | a dislike keeps matches and mutual likes in agreement |
| Ledger.LikeKeepsBacked | backend/routes/swipes.js:216-237 | after a like, every match is backed by a like in each direction |
| Ledger.LikeKeepsComplete | backend/routes/swipes.js:216-237 | after a like, every pair of mutual likes has its match |
| Ledger.DislikedPairNeverMatches | backend/routes/swipes.js:254-277 | two users one of whom disliked the other share no match |
| Ledger.DislikeExcludesLike | backend/routes/swipes.js:209-214 | under the one-swipe-per-pair rule, a user who disliked someone has not liked them |
| Ledger.OneMatchPerPair | backend/routes/swipes.js:228-237 | two users share at most one match |
| Ledger.RecordKeepsWriteOnce | backend/routes/swipes.js:209-216 | recording a swipe for a pair without one keeps the ledger at one swipe per pair |
| Ledger.LikeKeepsNormalised | backend/routes/swipes.js:228-237 | a like keeps every match `(min, max)` of two users and unique per pair |
| Ledger.OwnSwipeLeavesReverseLike | backend/routes/swipes.js:216-224 | recording the caller's swipe does not change whether the target likes the caller |
| Backend.LikeStep | backend/routes/swipes.js:200-249 | a like keeps the store invariant |
| Backend.SwipeStep | backend/routes/swipes.js:254-277 | a dislike (any new swipe of a fresh pair) keeps the store invariant |
| Backend.InvOrdersTables | backend/routes/matches.js:19 | in a store that keeps the invariant, `createdAt` grows along copies, wishlist entries, matches and messages |
| MatchRoutes.ListMatches | backend/routes/matches.js:9-40 | one entry per match of the caller |
| MatchRoutes.ListedAreMine | backend/routes/matches.js:13-33 | every entry describes one of the caller's matches: its id, the other participant and its last message |
| MatchRoutes.MineAreListed | backend/routes/matches.js:13-33 | every match of the caller has its entry |
| MatchRoutes.ListMatchesNewestFirst | backend/routes/matches.js:19 | entries come newest match first |
| MatchRoutes.OtherId | backend/routes/matches.js:22-25 | the other participant takes part in the match, and is not the caller when the two differ |
| MatchRoutes.LatestIsNewest | backend/routes/matches.js:28-33 | `lastMessage` is null exactly when the match has no message, and otherwise is its newest message |
| MatchRoutes.GetMatch | backend/routes/matches.js:43-67 | 404 exactly for an unknown id, then 403 exactly for a non-participant, otherwise 200 for a match of the caller |
| MatchRoutes.MatchMessages | backend/routes/matches.js:70-95 | the same 404-then-403 checks; otherwise exactly the match's messages |
| MatchRoutes.MatchMessagesOldestFirst | backend/routes/matches.js:82-85 | those messages come oldest first |
| MessageRoutes.MemberMatch | backend/routes/messages.js:11-28 | a match is found exactly when one with that id has the caller as a participant |
| MessageRoutes.GetThread | backend/routes/messages.js:34-48 | 403 exactly when the caller is in no match of that id; otherwise 200 with exactly the match's messages |
| MessageRoutes.GetThreadOldestFirst | backend/routes/messages.js:38-41 | the thread comes oldest first |
| MessageRoutes.CleanText | backend/routes/messages.js:59-66 | none exactly for a missing or all-white-space text, otherwise a non-empty text |
| MessageRoutes.CleanTextTrims | backend/routes/messages.js:63-66 | the kept text is the trimmed text, and cleaning it again changes nothing |
| MessageRoutes.Create | backend/models/Message.js:2-15 | `Message.create` fails exactly when `text`, `fromUserId` or `toUserId` is null; otherwise the row holds exactly the given attributes with the next id and time |
| MessageRoutes.WrittenCreateAlwaysFails | backend/routes/messages.js:63-67 | the insert as written, `{ matchId, senderId, text }`, fails validation for every caller and text |
| MessageRoutes.IntendedCreateSucceeds | backend/routes/messages.js:63-67 | the intended insert succeeds and stores a message from the caller to the other participant of the match |
| Backend.Store.PostMessageAsWritten | backend/routes/messages.js:54-74 | 403 for a non-member, then 400 for a blank text, otherwise always 500; no message is stored |
| Backend.Store.PostMessage | backend/routes/messages.js:54-74 | the intended route: 403 for a non-member and 400 for a blank text, both with the store unchanged; otherwise exactly one message is appended, with the trimmed text, the caller as sender, the other participant as receiver and the route's match id |
| Backend.PostMessageStep | backend/routes/messages.js:63-69 | appending a message between two participants of its match keeps the store invariant |
| Inventory.MyCards | backend/routes/cards.js:10-25 | one entry per copy of the caller |
| Inventory.MyCardsContents | backend/routes/cards.js:14-18 | the entries are exactly the caller's copies, each with its catalogue card |
| Inventory.MyCardsNewestFirst | backend/routes/cards.js:17 | the copies come newest first |
| Inventory.MyWishlist | backend/routes/wishlist.js:11-24 | one entry per wishlist entry of the caller |
| Inventory.MyWishlistContents | backend/routes/wishlist.js:13-17 | the entries are exactly the caller's wishlist entries, each with its catalogue card |
| Inventory.MyWishlistNewestFirst | backend/routes/wishlist.js:16 | the entries come newest first |
| Inventory.TrimOrNull | backend/routes/cards.js:36-43 | a body field is absent exactly when missing or blank, and kept as non-empty text otherwise |
| Inventory.TrimOrNullTrims | backend/routes/cards.js:36-43 | the kept text is the trimmed text, and the rule is idempotent |
| Inventory.FindOrCreate | backend/routes/cards.js:39-45 | the result is a card with that exact identity in the new catalogue; the catalogue grows by one new card exactly when none had that identity |
| Inventory.RepeatedAddReusesCard | backend/routes/cards.js:39-45 | adding the same identity again, after any further cards, reuses the card and creates nothing |
| Inventory.TradeFlag | backend/routes/cards.js:77-79 | the trade flag becomes the given boolean, and stays as it was for any other value |
| Inventory.OwnedCopyAt | backend/routes/cards.js:74 | the same lookup as line 97: the position found holds a copy with that id owned by the caller; none exactly when the caller owns no such copy |
| Backend.Store.AddCard | backend/routes/cards.js:31-61 | 400 for a blank name with the store unchanged; otherwise the trimmed identity is found or created and exactly one new copy of it, without photo and with trade flag `Boolean(isForTrade)`, is added for the caller |
| Backend.AddCardStep | backend/routes/cards.js:39-54 | find-or-create plus a new copy keeps the store invariant |
| Backend.Store.PatchCard | backend/routes/cards.js:68-86 | 404 with the store unchanged unless the caller owns the copy; otherwise only that copy's trade flag changes |
| Backend.PatchCardStep | backend/routes/cards.js:77-79 | changing one copy's trade flag keeps the store invariant |
| Backend.Store.DeleteCard | backend/routes/cards.js:92-106 | 404 with the store unchanged unless the caller owns the copy; otherwise exactly that copy is removed |
| Backend.DeleteCardStep | backend/routes/cards.js:100 | removing one copy keeps the store invariant |
| Inventory.ChooseWishCard | backend/routes/wishlist.js:38-57 | a truthy `cardId` picks that card or is unknown; otherwise no name means 400; otherwise the card is found by `(name, setName or null)` or created with `rarity` or null |
| Inventory.WishCardIgnoresRarity | backend/routes/wishlist.js:46-48 | on the name path the rarity in the request does not change which existing card is picked |
| Inventory.FindByNameAndSet | backend/routes/wishlist.js:46-48 | the lookup finds a card with that name and set exactly when one exists |
| Inventory.FindWish | backend/routes/wishlist.js:60-62 | the lookup finds the caller's entry for the card exactly when one exists |
| Inventory.Priority | backend/routes/wishlist.js:68 | the given priority when it is an integer, else 3 |
| Inventory.OwnWishAt | backend/routes/wishlist.js:88-90 | the position found holds an entry with that id of the caller; none exactly when there is none |
| Backend.Store.AddWish | backend/routes/wishlist.js:34-78 | 404 for an unknown `cardId`, 400 with neither `cardId` nor name, 409 when the caller already wishes for the card, each with the store unchanged; otherwise one new entry with the chosen card and priority |
| Backend.AddWishEntryStep | backend/routes/wishlist.js:59-66 | a new entry for a card the caller does not yet wish for keeps the store invariant |
| Backend.NewCardIsNotWished | backend/routes/wishlist.js:50-63 | a card just created is on no wishlist, so the 409 answer can only follow an existing card |
| Backend.Store.DeleteWish | backend/routes/wishlist.js:84-100 | 404 with the store unchanged unless the entry is the caller's; otherwise exactly that entry is removed |
| Backend.DeleteWishStep | backend/routes/wishlist.js:94 | removing one entry keeps the store invariant |
| Backend.OneWishPerCardAdd | backend/routes/wishlist.js:59-66 | adding an entry for a card the user does not wish for keeps one entry per user and card |
| Text.TrimRemovesOuterSpace | backend/routes/messages.js:59-63 | `trim` returns a slice of its input whose borders are not white space, and everything cut off is white space |
| Text.TrimEmptyIffBlank | backend/routes/messages.js:59 | `trim` gives the empty string exactly for an all-white-space text |
| Text.TrimIdempotent | backend/routes/messages.js:63 | trimming twice is trimming once |

## Left out

- Authentication: the caller's id is a trusted parameter. Token signing and verification are foreign code and are not part of this model.
- Photo upload (backend/routes/cards.js:107-135) is file-system I/O through `multer` and is not modelled. Copies are created without a photo, and `photoUrl` is only read.
- Concurrency: handlers run one at a time. The check-then-create races of `like` and of the find-or-create steps are not modelled, and neither is recovery from a unique-index violation.
- The 500 catch blocks, logging and JSON serialisation are left out. In particular an offset of plus infinity is echoed in the model as `PosInf`, where `JSON.stringify` would write `null`.
- Query numbers are exact reals. Double-precision rounding of `Number(x)` and of `offset + limit` is not modelled.
- The database's own error paths are not modelled. A request body field of another JavaScript type than the model's `Option<string>` or `Option<int>` is outside the model.
- Time: `createdAt` comes from a counter clock that every insert advances. Wall-clock ties are not modelled.
- Ids: one counter hands out the ids of every table. Per-table auto-increment sequences are not modelled, and the route parameters are taken as already-parsed integers.
- String comparison is exact character equality. Database collation is not modelled.
- Routing: whether a router is mounted, and the URL dispatch, are left out. The messages router is modelled as written.
- Backend.Store.Like: the target user's existence is not checked, as in the source. The real swipes table has a foreign key from `toUserId` to the users, so a like of an unknown user ends in a 500 with no row written; the model answers 201 and records the swipe. This is one of the database error paths the model leaves out. Like does not state reciprocity itself; `Ledger.LikeKeepsReciprocal` states it for the new tables.
- Backend.Store.Dislike: does not itself state that reciprocity is kept; `Ledger.DislikeKeepsReciprocal` states it.
- Backend.Store.constructor: the store starts from a given set of accounts with empty tables. Registration is not modelled. `Backend.EmptyStore` states that the empty tables keep the invariant and agree on matches.
- Backend.Store: the whole database is one immutable value, reassigned by each route. In-place row updates and aliasing between rows are not modelled.
- MessageRoutes.CleanText: the contract says only whether a text is kept; which text is kept is stated by `MessageRoutes.CleanTextTrims`.
- Inventory.TrimOrNull: the contract says only whether a value is kept; which value is kept is stated by `Inventory.TrimOrNullTrims`.
- Text.Trim: strings are sequences of code points rather than UTF-16 code units, so surrogate pairs are not modelled. There is no Unicode normalisation.
- Row order of queries without an `ORDER BY`: the model takes every such query in table order. These queries are the direction A rows (backend/routes/swipes.js:64-73), the direction B rows (backend/routes/swipes.js:106-114), the fill-in users (backend/routes/swipes.js:148-152) and the `Card.findOne` by name and set (backend/routes/wishlist.js:46-48), which can match several cards that differ only in rarity. That order decides the Map insertion order, so it decides the tie order that `RankingProps.RankedOrder` states, and it decides which card the wishlist picks. The `limit: 200` cap of both direction queries is likewise the first 200 rows in table order. The database's own choice and order of rows is not modelled.

## Findings

| source | as written | input that shows it | evidently intended | confidence | as-written member | corrected member |
|---|---|---|---|---|---|---|
| backend/routes/messages.js:63-67 | `Message.create({ matchId, senderId, text })` sets no `fromUserId` or `toUserId`, which backend/models/Message.js:7-14 declares `allowNull: false`; the unknown key `senderId` is dropped, so validation fails and the catch answers 500 | match 1 between users 1 and 2; user 1 posts `{ text: "hola" }` to match 1: 500, no row | store the message with `fromUserId` = caller and `toUserId` = the other participant, as backend/scripts/seed.js:48-49 writes them and the chat screen reads `fromUserId` | high (not executed) | Backend.Store.PostMessageAsWritten | Backend.Store.PostMessage |
