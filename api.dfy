/**
 * The route handlers of routes/api.js as methods of one object that holds
 * the store and the credential service. Each mutating method fetches the
 * named board, changes the fetched copy step by step and writes it back
 * whole, as `findOne`, the in-memory update and `save` do in the source; its
 * contract ties the response and the new store to the handler's function in
 * module Handlers, where the handler's properties are proved.
 */
module Api {
  import opened Wrappers
  import opened Models
  import opened Sequences
  import opened Views
  import opened Handlers

  class MessageBoard {
    /** The persisted boards, by name. */
    var boards: Store
    /** The password hashing service the handlers call. */
    const creds: Credentials

    /** Identifiers are nonempty and unique within each board and each thread. */
    ghost predicate Valid()
      reads this
    {
      WellFormed(boards)
    }

    constructor (creds: Credentials)
      ensures Valid() && boards == map[] && this.creds == creds
    {
      boards := map[];
      this.creds := creds;
    }

    /** POST /api/threads/:board, with `id` the new ObjectId and `now` the current time. */
    method CreateThread(board: string, text: string, password: string, id: string, now: int) returns (r: Response)
      requires Valid() && Fresh(boards, id)
      modifies this
      ensures Valid()
      ensures Step(r, boards) == Handlers.CreateThread(old(boards), creds, board, text, password, id, now)
    {
      ghost var before := boards;
      var hashed := creds.hash(password);
      var threads: seq<Thread> := [];
      if board in boards {
        threads := boards[board];
      }
      var thread := Thread(id, text, now, now, false, hashed, [], 0);
      threads := threads + [thread];
      boards := boards[board := threads];
      r := ThreadCreated(thread);
      CreateThreadKeepsWellFormed(before, creds, board, text, password, id, now);
    }

    /** GET /api/threads/:board. */
    method ListRecentThreads(board: string) returns (r: Response)
      ensures r == Handlers.ListRecentThreads(boards, board)
    {
      if board !in boards {
        return NotFound(NoBoard);
      }
      r := ThreadList(ListView(boards[board]));
    }

    /** DELETE /api/threads/:board. */
    method DeleteThread(board: string, threadId: Option<string>, password: string) returns (r: Response)
      requires Valid()
      modifies this
      ensures Valid()
      ensures Step(r, boards) == Handlers.DeleteThread(old(boards), creds, board, threadId, password)
    {
      ghost var before := boards;
      if board !in boards {
        return NotFound(NoBoard);
      }
      var threads := boards[board];
      var found := Find(threads, ThreadIdOf, threadId);
      if found.None? {
        return NotFound(NoThread);
      }
      if !creds.verify(password, threads[found.value].deletePassword) {
        return IncorrectPassword;
      }
      threads := Without(threads, ThreadIdOf, threadId);
      boards := boards[board := threads];
      r := Success;
      DeleteThreadKeepsWellFormed(before, creds, board, threadId, password);
    }

    /** PUT /api/threads/:board. */
    method ReportThread(board: string, threadId: Option<string>) returns (r: Response)
      requires Valid()
      modifies this
      ensures Valid()
      ensures Step(r, boards) == Handlers.ReportThread(old(boards), board, threadId)
    {
      ghost var before := boards;
      if board !in boards {
        return NotFound(NoBoard);
      }
      var threads := boards[board];
      var found := Find(threads, ThreadIdOf, threadId);
      if found.None? {
        return NotFound(NoThread);
      }
      var i := found.value;
      threads := threads[i := threads[i].(reported := true)];
      boards := boards[board := threads];
      r := Reported;
      ReportThreadKeepsWellFormed(before, board, threadId);
    }

    /** GET /api/replies/:board, with `threadId` the query parameter. */
    method GetThread(board: string, threadId: Option<string>) returns (r: Response)
      ensures r == Handlers.GetThread(boards, board, threadId)
    {
      if board !in boards {
        return NotFound(NoBoard);
      }
      if threadId.None? || threadId.value == "" {
        return MissingThreadId;
      }
      var threads := boards[board];
      var found := Find(threads, ThreadIdOf, threadId);
      if found.None? {
        return NotFound(NoThread);
      }
      r := ThreadShown(DetailOf(threads[found.value]));
    }

    /** POST /api/replies/:board, with `id` the new ObjectId and `now` the current time. */
    method CreateReply(board: string, threadId: Option<string>, text: string, password: string, id: string, now: int)
      returns (r: Response)
      requires Valid() && Fresh(boards, id)
      modifies this
      ensures Valid()
      ensures Step(r, boards) == Handlers.CreateReply(old(boards), creds, board, threadId, text, password, id, now)
    {
      ghost var before := boards;
      if board !in boards {
        return NotFound(NoBoard);
      }
      var threads := boards[board];
      var found := Find(threads, ThreadIdOf, threadId);
      var hashed := creds.hash(password);
      if found.None? {
        return NotFound(NoThread);
      }
      var i := found.value;
      var reply := Reply(id, text, now, now, false, hashed);
      var thread := threads[i].(bumpedOn := now);
      thread := thread.(replies := thread.replies + [reply]);
      threads := threads[i := thread];
      boards := boards[board := threads];
      r := ReplyCreated(reply);
      CreateReplyKeepsWellFormed(before, creds, board, threadId, text, password, id, now);
    }

    /** DELETE /api/replies/:board. */
    method DeleteReply(board: string, threadId: Option<string>, replyId: Option<string>, password: string)
      returns (r: Response)
      requires Valid()
      modifies this
      ensures Valid()
      ensures Step(r, boards) == Handlers.DeleteReply(old(boards), creds, board, threadId, replyId, password)
    {
      ghost var before := boards;
      if board !in boards {
        return NotFound(NoBoard);
      }
      var threads := boards[board];
      var foundThread := Find(threads, ThreadIdOf, threadId);
      if foundThread.None? {
        return NotFound(NoThread);
      }
      var i := foundThread.value;
      var replies := threads[i].replies;
      var foundReply := Find(replies, ReplyIdOf, replyId);
      if foundReply.None? {
        return NotFound(NoReply);
      }
      var j := foundReply.value;
      if !creds.verify(password, replies[j].deletePassword) {
        return IncorrectPassword;
      }
      replies := replies[j := replies[j].(text := Redacted)];
      threads := threads[i := threads[i].(replies := replies)];
      boards := boards[board := threads];
      r := Success;
      DeleteReplyKeepsWellFormed(before, creds, board, threadId, replyId, password);
    }

    /** PUT /api/replies/:board. */
    method ReportReply(board: string, threadId: Option<string>, replyId: Option<string>) returns (r: Response)
      requires Valid()
      modifies this
      ensures Valid()
      ensures Step(r, boards) == Handlers.ReportReply(old(boards), board, threadId, replyId)
    {
      ghost var before := boards;
      if board !in boards {
        return NotFound(NoBoard);
      }
      var threads := boards[board];
      var foundThread := Find(threads, ThreadIdOf, threadId);
      if foundThread.None? {
        return NotFound(NoThread);
      }
      var i := foundThread.value;
      var replies := threads[i].replies;
      var foundReply := Find(replies, ReplyIdOf, replyId);
      if foundReply.None? {
        return NotFound(NoReply);
      }
      var j := foundReply.value;
      replies := replies[j := replies[j].(reported := true)];
      threads := threads[i := threads[i].(replies := replies)];
      boards := boards[board := threads];
      r := Reported;
      ReportReplyKeepsWellFormed(before, board, threadId, replyId);
    }
  }
}
