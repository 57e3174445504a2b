# Anonymous message board: a Dafny model of the board aggregate

This project models the in-memory behaviour of the message board's eight HTTP
handlers (`routes/api.js`). The data model follows the schemas in `models.js`.
A board is named and owns an ordered sequence of threads. A thread owns an
ordered sequence of replies. Every handler looks up one board by name,
changes it in memory and saves it whole.

Layout:

- `models.dfy` (module `Models`): the `Reply` and `Thread` datatypes, and the store
  as a map from board name to that board's threads. The credential service is a
  pair of opaque functions (`hash`, `verify`).
- `sequences.dfy` (module `Sequences`): the array operations the handlers use.
  These are `find` by identifier (`Find`), `filter` by identifier (`Without`),
  `map` and `slice(0, n)`.
- `stable_sort.dfy` (module `StableSort`): the stable sort with the newest entry
  first, used by `sort((a, b) => b.x - a.x)`, and `TopN`, which is that sort
  followed by `slice(0, n)`. The sort is characterised independently of its
  definition: it orders by key, permutes its input, keeps the order of equal keys,
  and is the only arrangement that does all three.
- `views.dfy` (module `Views`): the recent-threads list and the single-thread
  view, as projections.
- `handlers.dfy` (module `Handlers`): each handler as a function from the old
  store to a `Step` (the response and the new store). This module also holds
  the board-then-thread-then-reply lookup cascade and the lemmas that relate
  handlers to one another.
- `api.dfy` (module `Api`): the class `MessageBoard`. It holds the store and
  the credential service. Its eight methods perform each handler's steps on the
  fetched board and write the board back. Each method's contract equates the
  response and the new store with the function in `Handlers`.

Request fields that may be absent (`thread_id`, `reply_id`) are `Option<string>`.
An absent field matches no identifier. The newly generated ObjectId and the current
time are parameters. Identifiers are strings (the source compares
`_id.toString()`), and timestamps are milliseconds as `int`.

Quirks of the code that the model keeps:

- The reply handler runs `thread.replycount += 1` (lower-case `c`). The schema
  field is `replyCount`, so the stored counter is never incremented.
  `Handlers.CreateReply` states that `replyCount` is unchanged.
- `GET /api/replies` looks the board up before it checks the `thread_id`
  parameter. A missing board therefore answers "board not found" even when the
  parameter is missing too. An empty `thread_id` counts as missing (the source
  tests it for truthiness).
- The created thread and the created reply are returned as stored, including
  the password hash, because the source sends the raw objects.

## Model

| member | source | states |
|---|---|---|
| `Sequences.Find` | routes/api.js:92 | the index returned is of the first element whose id equals the requested one; none is returned exactly when no element matches or the field is absent |
| `Sequences.Without` | routes/api.js:103 | every element kept is from the input and not named by the request; every input element not named is kept; never longer than the input |
| `Sequences.WithoutAppend` | routes/api.js:103 | the filter works element by element and keeps order: filtering a concatenation concatenates the filtered parts |
| `Sequences.WithoutCons` | routes/api.js:103 | the filter's defining step unfolded once, for a sequence written as head plus rest: the head is kept in front exactly when the request does not name it, then the rest is filtered |
| `Sequences.WithoutSingle` | routes/api.js:103 | a single element is kept exactly when the request does not name it |
| `Sequences.WithoutExactlyOne` | routes/api.js:103 | with distinct ids, filtering out the id of element i removes that element only; the rest keep their order |
| `Sequences.Map` | routes/api.js:61-73 | `map` gives one result per element, in order: same length, and entry k is the function applied to element k |
| `Sequences.Take` | routes/api.js:60 | `slice(0, n)` gives the first min(n, size) elements of the input, in order |
| `StableSort.SortDesc` | routes/api.js:59 | the sorted threads (or replies) are a permutation of the input (same multiset, same length) with non-increasing keys |
| `StableSort.SortDescStable` | routes/api.js:59 | for every key value, the elements carrying it keep their stored relative order |
| `StableSort.DescendingUnique` | routes/api.js:59 | two descending sequences that agree key by key on their elements and order are equal |
| `StableSort.SortDescCharacterized` | routes/api.js:59 | any descending, order-preserving arrangement of the input is the sort's result, so every stable engine sort gives the same answer |
| `StableSort.TopN` | routes/api.js:59-60 | sort-then-slice keeps min(n, size) elements, with non-increasing keys, drawn from the input (a sub-multiset) |
| `StableSort.TopNKeepsLargest` | routes/api.js:59-60 | no element that sort-then-slice leaves out has a larger key than one it keeps |
| `Views.SummarizeReply` | routes/api.js:69-73 | a listed reply shows the reply's id, text and createdOn |
| `Views.SummarizeThread` | routes/api.js:61-73 | a listed thread shows the thread's id, text, createdOn and bumpedOn, and min(3, number of replies) replies in non-increasing createdOn order, each the summary of one of its stored replies |
| `Views.ListView` | routes/api.js:58-74 | the list has min(10, number of threads) entries, and each entry shows at most 3 replies |
| `Views.ListViewOrdered` | routes/api.js:58-74 | listed threads are in non-increasing bumpedOn order; each thread's listed replies are in non-increasing createdOn order |
| `Views.ListViewIsStableSortPrefix` | routes/api.js:58-61 | the list is the projection of the first 10 threads of any stable most-recently-bumped-first arrangement of the stored threads |
| `Views.SummaryRepliesAreStableSortPrefix` | routes/api.js:66-73 | a listed thread shows the first 3 of any stable newest-first arrangement of its replies |
| `Views.ListViewShowsLatest` | routes/api.js:58-60 | a stored thread whose entry is not in the list was bumped no later than every listed thread |
| `Views.ListViewHidesPrivateFields` | routes/api.js:61-73 | the list does not depend on password hashes, report flags, the reply counter or replies' bumpedOn: blanking them yields the same list |
| `Views.DetailOf` | routes/api.js:159-167 | the thread view keeps the thread's id, text and timestamps, and has one entry per reply, in stored order, with the reply's id, text, createdOn and bumpedOn |
| `Handlers.LocateThread` | routes/api.js:86-96 | board lookup first, then the first thread with the requested id; the answer is board-not-found exactly when the board is missing, thread-not-found exactly when it exists but no thread has the id, and otherwise the first matching thread (never reply-not-found) |
| `Handlers.LocateReply` | routes/api.js:220-236 | a board or thread failure is exactly the thread lookup's failure; reply-not-found exactly when the thread is found but none of its replies has the requested id; otherwise the found thread and its first matching reply |
| `Handlers.CreateThread` | routes/api.js:16-44 | the board exists afterwards (created empty if missing); its threads are the old ones plus the new thread at the end, which has the given id and text, createdOn = bumpedOn = now, is not reported, has the hashed password, no replies and replyCount 0; other boards are untouched |
| `Handlers.ListRecentThreads` | routes/api.js:50-75 | a missing board answers board-not-found; otherwise the list view of its stored threads |
| `Handlers.DeleteThread` | routes/api.js:81-107 | not-found cascade, then "incorrect password" exactly when verification fails; every outcome but success leaves the store unchanged; success filters out every thread carrying the id and touches no other board |
| `Handlers.ReportThread` | routes/api.js:113-133 | reported exactly when the thread is found, with no password; then only that thread changes and only its reported flag becomes true; otherwise not-found and no change |
| `Handlers.GetThread` | routes/api.js:141-169 | board-not-found first, then missing-parameter for an absent or empty thread_id, then thread-not-found, else the thread view of the first matching thread |
| `Handlers.CreateReply` | routes/api.js:177-209 | not-found and no change unless the thread is found; then the new reply (given id and text, both timestamps now, not reported, hashed password) is appended to that thread's replies, the thread's bumpedOn becomes now, and its id, text, createdOn, reported, hash and replyCount are unchanged, as are all other threads |
| `Handlers.DeleteReply` | routes/api.js:215-247 | three-level not-found cascade, then "incorrect password" exactly when verification fails, both without change; success replaces only that reply's text by "[deleted]", keeping its place, id, timestamps, report flag and the number of replies |
| `Handlers.ReportReply` | routes/api.js:253-279 | reported exactly when the reply is found, with no password; then only that reply's reported flag becomes true; otherwise not-found and no change |
| `Handlers.ReportThreadSucceedsIfPresent` | routes/api.js:118-131 | reporting a stored thread by its own id answers "reported" |
| `Handlers.ReportReplySucceedsIfPresent` | routes/api.js:258-277 | with thread ids unique in the board, reporting a stored reply by its thread's id and its own id answers "reported" |
| `Handlers.ReportThreadIdempotent` | routes/api.js:124-131 | reporting a thread twice gives the same response and store as reporting it once |
| `Handlers.ReportReplyIdempotent` | routes/api.js:270-277 | reporting a reply twice gives the same response and store as reporting it once |
| `Handlers.DeleteThreadRemovesOnlyTarget` | routes/api.js:92-104 | with unique ids, a successful delete leaves the board's threads minus exactly the found one, others in order |
| `Handlers.DeleteThreadThenGet` | routes/api.js:98-106 | after a successful delete, viewing that thread answers thread-not-found |
| `Handlers.CreateReplyThenGet` | routes/api.js:196-207 | after a reply is created, the thread view shows the thread bumped to now and the new reply last with the id, text and timestamps it was created with |
| `Handlers.DeleteReplyThenGet` | routes/api.js:238-244 | after a successful reply delete, the thread view still has as many replies, and the deleted one shows "[deleted]" with its id and timestamps |
| `Handlers.CreateThreadThenList` | routes/api.js:32-42 | a thread created later than every thread of its board was bumped comes first in the board's list, with no replies |
| `Handlers.CreateThenDeleteThread` | routes/api.js:92-106 | create with password pw; delete with another password answers "incorrect password" and changes nothing; delete with pw succeeds; the thread is then not found |
| `Handlers.CreateThreadKeepsWellFormed` | routes/api.js:32-42 | with a fresh id, creating a thread keeps ids nonempty and unique per board and per thread |
| `Handlers.DeleteThreadKeepsWellFormed` | routes/api.js:103 | deleting a thread keeps the id invariant |
| `Handlers.ReportThreadKeepsWellFormed` | routes/api.js:130 | reporting a thread keeps the id invariant |
| `Handlers.CreateReplyKeepsWellFormed` | routes/api.js:196-207 | with a fresh id, creating a reply keeps the id invariant |
| `Handlers.DeleteReplyKeepsWellFormed` | routes/api.js:243 | deleting a reply keeps the id invariant |
| `Handlers.ReportReplyKeepsWellFormed` | routes/api.js:276 | reporting a reply keeps the id invariant |
| `Api.MessageBoard.CreateThread` | routes/api.js:16-44 | response and new store are those of `Handlers.CreateThread` on the old store; the id invariant is kept |
| `Api.MessageBoard.ListRecentThreads` | routes/api.js:50-75 | the response is `Handlers.ListRecentThreads` of the current store |
| `Api.MessageBoard.DeleteThread` | routes/api.js:81-107 | response and new store are those of `Handlers.DeleteThread`; the id invariant is kept |
| `Api.MessageBoard.ReportThread` | routes/api.js:113-133 | response and new store are those of `Handlers.ReportThread`; the id invariant is kept |
| `Api.MessageBoard.GetThread` | routes/api.js:141-169 | the response is `Handlers.GetThread` of the current store |
| `Api.MessageBoard.CreateReply` | routes/api.js:177-209 | response and new store are those of `Handlers.CreateReply`; the id invariant is kept |
| `Api.MessageBoard.DeleteReply` | routes/api.js:215-247 | response and new store are those of `Handlers.DeleteReply`; the id invariant is kept |
| `Api.MessageBoard.ReportReply` | routes/api.js:253-279 | response and new store are those of `Handlers.ReportReply`; the id invariant is kept |

## Left out

- HTTP routing, body parsing and status codes: each response is a case of `Handlers.Response`, and the case implies the status.
- Password hashing and comparison (bcrypt) are the opaque functions of `Models.Credentials`. Nothing is assumed about them. The salt is not modelled, so `hash` is a function of the plain text alone.
- ObjectId generation and `new Date()` are parameters (`id`, `now`). The class methods that create require the id to be fresh. This is what the ObjectId generator guarantees, and it keeps ids unique per board and per thread.
- The document store is a map from name to threads, so two boards with the same name cannot be represented. In the source, boards are created only by the thread-creating handler, and only when `findOne` finds none, so names stay unique.
- The 500 paths are not modelled. They come from store failures and from failures inside the handlers' `try` blocks, such as the reply handler's `bcrypt.hash` (routes/api.js:190) when `delete_password` is absent. Console logging is not modelled either.
- A failing password hash when a thread is created is not modelled. That `bcrypt.hash` call (routes/api.js:20) runs before the `try` at routes/api.js:22, so its rejection is unhandled and no response is sent at all.
- A request whose `text` is absent would store `undefined`; `text` is always a string here. Repeated query parameters, which Express turns into arrays, are not modelled.
- Concurrency is not modelled: concurrent read-modify-write cycles on the same board can lose updates. Each method here runs alone.
- The list handler's `.sort` calls reorder the fetched copy of the board, but that copy is never saved. The list view is therefore a pure function.
- Timestamps are integers. Invalid dates (`NaN` in a comparator) are not modelled.
- `bumpedOn >= createdOn` is not an invariant of the model. It holds only if the clock never goes backwards, and the clock is a parameter.
