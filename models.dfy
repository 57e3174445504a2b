/**
 * The persisted shape of the message board (the Mongoose schemas of models.js):
 * a board is a name and an ordered sequence of threads, a thread owns an
 * ordered sequence of replies. Identifiers are the canonical string form of
 * the store's ObjectIds; timestamps are milliseconds, as `int`.
 */
module Models {

  /** A reply nested in a thread (replysSchema). `deletePassword` holds the hash, never the plain text. */
  datatype Reply = Reply(
    id: string,
    text: string,
    createdOn: int,
    bumpedOn: int,
    reported: bool,
    deletePassword: string)

  /** A thread nested in a board (threadsSchema). */
  datatype Thread = Thread(
    id: string,
    text: string,
    createdOn: int,
    bumpedOn: int,
    reported: bool,
    deletePassword: string,
    replies: seq<Reply>,
    replyCount: int)

  /**
   * The document store: each board name maps to that board's threads, in
   * stored order. A board document exists exactly when its name is a key.
   */
  type Store = map<string, seq<Thread>>

  /**
   * The credential service: a one-way hash and the check of a plain text
   * against a stored hash. Both are opaque; nothing is assumed about them.
   */
  datatype Credentials = Credentials(hash: string -> string, verify: (string, string) -> bool)

  // Accessors handed to the generic lookups and sorts.
  function ThreadIdOf(t: Thread): string { t.id }
  function ReplyIdOf(r: Reply): string { r.id }
  function BumpedOn(t: Thread): int { t.bumpedOn }
  function ReplyCreatedOn(r: Reply): int { r.createdOn }
}
