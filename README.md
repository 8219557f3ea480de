# Topic presence counter and topic search — a verified model

This project models the logic of the topic selector of a live, topic-based
discussion app (components/videochat/TopicSelector.js):

- the fixed catalog of twenty discussion topics;
- the presence counter. For the signed-in observer it turns each snapshot of
  the open rooms into a map from topic id to the total length of the
  participant lists of other users' rooms on that topic. Every snapshot
  rebuilds the map from zero;
- the topic search. It keeps the catalog topics whose lower-cased name
  contains the lower-cased search term, in catalog order.

Modules:

- `Wrappers` (wrappers.dfy): `Option`, for fields of a stored room that may be absent.
- `Seqs` (seqs.dfy): order-preserving subsequences and duplicate-free sequences.
- `Catalog` (catalog.dfy): the `Topic` record and the `Topics` catalog.
  Also ASCII lower-casing, the substring test behind `includes`, and the search filter.
- `Presence` (presence.dfy): the `Room` record and the status query.
  Also the per-document step `CountRoom`, the snapshot callback `OnSnapshot`,
  the reference count `TopicTotal`/`TopicCounts`, and the lemmas about them.

The snapshot callback has two loops in the source. In the model the first
loop, which puts every catalog id at 0, is the method `ZeroCounts`. The
method `OnSnapshot` calls it and then runs the second loop, which folds the
snapshot's documents into the map one at a time. Its loop invariant ties the
map to `TopicTotal`, the sum of each room's `Contribution`. A room contributes the length of its participant list
when all of these hold:

- its `createdBy` is not the observer's uid;
- its topic is a present, non-empty string that is a key of the map;
- it has a participant list (an empty list still counts, and adds 0).

Every entry of `participants` is counted whatever its role, and there is no
two-occupant cap: the count is the raw list length.

## Model

| member | source | states |
|---|---|---|
| Catalog.CatalogIdsDistinct | components/videochat/TopicSelector.js:6-27 | no two catalog topics share an id (so no two entries are equal), so the count map has exactly one key per catalog entry |
| Catalog.TopicIds | components/videochat/TopicSelector.js:6-27 | the key set holds the id of every catalog entry and nothing else, and no key is the empty string |
| Catalog.CatalogKeyCount | components/videochat/TopicSelector.js:6-27 | the catalog has twenty entries and twenty distinct ids, so every count map has exactly twenty keys |
| Catalog.LowerChar | components/videochat/TopicSelector.js:142 | the result is never an upper-case ASCII letter; the k-th letter of the upper-case alphabet table becomes the k-th letter of the lower-case table; any character outside that table is unchanged |
| Catalog.Lower | components/videochat/TopicSelector.js:142 | `toLowerCase` keeps the length and lower-cases each character in place |
| Catalog.LowerIdempotent | components/videochat/TopicSelector.js:142 | lower-casing an already lower-cased string changes nothing |
| Catalog.Includes | components/videochat/TopicSelector.js:142 | `includes` holds exactly when the term occurs at some position of the name (both directions) |
| Catalog.IncludesEmpty | components/videochat/TopicSelector.js:142 | every string includes the empty term |
| Catalog.FilterTopics | components/videochat/TopicSelector.js:141-143 | the result is a subsequence of the input in its order, every kept topic matches, and an input topic is kept exactly when its lower-cased name contains the lower-cased term |
| Catalog.FilterUnique | components/videochat/TopicSelector.js:141-143 | on an input without repeated entries, the filter's result is the only order-preserving subsequence that keeps exactly the matching topics |
| Catalog.FilteredTopics | components/videochat/TopicSelector.js:141-143 | the shown topics are a subsequence of the catalog in catalog order, each matches, and a catalog topic is shown exactly when its lower-cased name contains the lower-cased search term |
| Catalog.FilteredTopicsUnique | components/videochat/TopicSelector.js:141-143 | any order-preserving selection of exactly the matching catalog topics is the shown list, which the distinct catalog entries make possible |
| Catalog.FilterEmptyKeepsAll | components/videochat/TopicSelector.js:141-143 | filtering with the empty term returns the input unchanged |
| Catalog.EmptySearchShowsCatalog | components/videochat/TopicSelector.js:141-143 | with an empty search box the whole catalog is shown, in order |
| Catalog.FilterCaseInsensitive | components/videochat/TopicSelector.js:141-143 | a search term and its lower-cased form select the same topics |
| Presence.OpenRooms | components/videochat/TopicSelector.js:93-96 | the query returns only waiting or active rooms, every room it returns is in the collection and open, and every open room of the collection appears in it |
| Presence.OpenRoomsExact | components/videochat/TopicSelector.js:93-96 | the query keeps each open room exactly as many times as the collection holds it, keeps no closed room, and keeps the collection's order |
| Presence.ZeroCounts | components/videochat/TopicSelector.js:101-106 | the initial map has exactly the catalog ids as keys, all at 0 |
| Presence.CountRoom | components/videochat/TopicSelector.js:109-131 | one document step adds no key, and adds to each key exactly that room's contribution: its list length on its own topic if it is someone else's and has a list, 0 elsewhere |
| Presence.OnSnapshot | components/videochat/TopicSelector.js:98-136 | the published map has exactly the catalog ids as keys, and each topic's count is the sum of the contributions of the snapshot's rooms; it depends on the uid and the snapshot alone |
| Presence.TopicTotalConcat | components/videochat/TopicSelector.js:109-132 | the count over two concatenated batches of rooms is the sum of their counts |
| Presence.TopicTotalInsert | components/videochat/TopicSelector.js:109-132 | inserting one room anywhere in a snapshot raises each topic's count by exactly that room's contribution |
| Presence.TopicTotalPermutation | components/videochat/TopicSelector.js:109-132 | any reordering of the snapshot yields the same count for each topic |
| Presence.CountsPermutation | components/videochat/TopicSelector.js:98-135 | any reordering of the snapshot yields the same count map |
| Presence.IgnoredRoomInvisible | components/videochat/TopicSelector.js:119-130 | a room that is the observer's own, has no topic or a topic outside the catalog, or has no participant list leaves the whole map unchanged wherever it stands, and adds no key |
| Presence.CountedRoomAdds | components/videochat/TopicSelector.js:126-130 | any other room adds its participant-list length to its own topic and leaves every other topic unchanged |
| Presence.OwnRoomsExcludedAt | components/videochat/TopicSelector.js:119-123 | for each topic, the count equals the count over the snapshot with the observer's own rooms removed |
| Presence.OwnRoomsExcluded | components/videochat/TopicSelector.js:119-123 | the count map equals the map computed from the rooms the observer did not create |
| Presence.OthersRooms | components/videochat/TopicSelector.js:119-123 | removing the observer's own rooms leaves no room created by the observer |
| Presence.OthersRoomsExact | components/videochat/TopicSelector.js:119-123 | removing the observer's own rooms keeps every other room exactly as many times as the snapshot holds it |
| Presence.OpenRoomsConcat | components/videochat/TopicSelector.js:93-96 | the status query distributes over concatenation of the collection |
| Presence.ClosedRoomInvisible | components/videochat/TopicSelector.js:93-96 | a closed room anywhere in the collection does not change the count map |
| Presence.CountIsOccupantLength | components/videochat/TopicSelector.js:101-132 | each topic's count equals the number of entries in the joined participant lists of other users' rooms on that topic |
| Presence.NewWaitingRoomScenario | components/videochat/TopicSelector.js:98-136 | a new waiting "technology" room with only its creator shows 0 to the creator and 1 to any other observer |

## Left out

- Firestore I/O is not modelled: the query, the `onSnapshot` subscription and `unsubscribe` (lines 93-98, 138). The snapshot reaches the model as a sequence of room records, and the query as the `OpenRooms` filter.
- The order in which Firestore returns documents is not modelled. `CountsPermutation` shows that the counts do not depend on it.
- The `if (!user) return` guard (line 89) is not modelled. The uid is a parameter, so the model assumes a signed-in user.
- React state (`useState`, `setOnlineUsers`), the JSX tree with its "online" badge, and every `console.log` are UI and logging.
- The document id (`doc.id`) is not modelled. It is only logged.
- The `LANGUAGES`, `CONTINENTS`, `ROLES` and `CONVERSATION_STARTERS` tables (lines 29-70) are not modelled. No logic in the file uses them.
- Catalog.LowerChar: lower-cases ASCII letters only. `toLowerCase` applies full Unicode case mapping, to the catalog names and to the user's search term alike. The catalog names are ASCII, so they are lower-cased exactly. A non-ASCII search term is not: U+212A KELVIN SIGN becomes `k` in JavaScript but stays unchanged in the model. The model therefore does not capture the search results for such terms.
- Room fields are modelled with their intended JavaScript types. A non-string topic or a non-array `participants` value, which JavaScript would still accept, is not modelled.
- components/auth/SignIn.js and pages/auth.js are not part of this model. They hold authentication calls, form validation and redirects only.
- Nothing outside components/videochat/TopicSelector.js is modelled. In particular, no code that creates, joins or closes rooms is part of this model.
