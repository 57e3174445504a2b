/**
 * The eight handlers of routes/api.js as transitions of the store: each one
 * looks a board up by name, changes the fetched board in memory and saves it
 * whole, so its effect is a function from the old store to a response and
 * the new store. The class in module Api performs the same steps in place
 * and is proved equal to these functions.
 */
module Handlers {
  import opened Wrappers
  import opened Models
  import opened Sequences
  import opened StableSort
  import opened Views

  /** The text a deleted reply is left with. */
  const Redacted := "[deleted]"

  /** Which level of the board, thread, reply cascade was not found. */
  datatype Absent = NoBoard | NoThread | NoReply

  /** What a handler sends back (the HTTP status is implied by the case). */
  datatype Response =
    | NotFound(absent: Absent)               // 404 with an error body
    | MissingThreadId                        // 400: no thread_id in the query
    | IncorrectPassword                      // 200 'incorrect password'
    | Success                                // 200 'success'
    | Reported                               // 200 'reported'
    | ThreadCreated(thread: Thread)          // 200 with the new thread, hash included
    | ReplyCreated(reply: Reply)             // 200 with the new reply, hash included
    | ThreadList(threads: seq<ThreadSummary>)
    | ThreadShown(detail: ThreadDetail)

  /** A handler's response and the store it leaves behind. */
  datatype Step = Step(response: Response, store: Store)

  /** Where the cascade of lookups ended: `i` indexes the board's threads, `j` that thread's replies. */
  datatype Location = Missing(absent: Absent) | ThreadAt(i: nat) | ReplyAt(i: nat, j: nat)

  predicate WellFormedThread(t: Thread)
  {
    t.id != "" && DistinctIds(t.replies, ReplyIdOf) && forall r :: r in t.replies ==> r.id != ""
  }

  /**
   * What the store's identifier generator guarantees: identifiers are
   * nonempty, and unique among a board's threads and among a thread's replies.
   */
  predicate WellFormed(store: Store)
  {
    forall b :: b in store ==>
      DistinctIds(store[b], ThreadIdOf) && forall t :: t in store[b] ==> WellFormedThread(t)
  }

  /** `id` is newly generated: nonempty and carried by no thread and no reply of the store. */
  ghost predicate Fresh(store: Store, id: string)
  {
    id != "" &&
    forall b, t :: b in store && t in store[b] ==>
      t.id != id && forall r :: r in t.replies ==> r.id != id
  }

  /** The threads of `board`, or none if it has no document yet. */
  function ThreadsOf(store: Store, board: string): seq<Thread>
  {
    if board in store then store[board] else []
  }

  /** `after` is `before` with at most thread `i` of `board` replaced. */
  ghost predicate ThreadReplaced(before: Store, after: Store, board: string, i: nat)
  {
    board in before && board in after &&
    i < |before[board]| && |after[board]| == |before[board]| &&
    after == before[board := before[board][i := after[board][i]]]
  }

  /** `after` is `before` with at most reply `j` replaced. */
  ghost predicate ReplyReplaced(before: Thread, after: Thread, j: nat)
  {
    j < |before.replies| && |after.replies| == |before.replies| &&
    after == before.(replies := before.replies[j := after.replies[j]])
  }

  /** The board lookup, then the first thread whose id equals `threadId`. */
  function LocateThread(store: Store, board: string, threadId: Option<string>): (l: Location)
    ensures l.Missing? || l.ThreadAt?
    ensures l != Missing(NoReply)
    ensures l == Missing(NoBoard) <==> board !in store
    ensures l == Missing(NoThread) <==>
      board in store && forall k :: 0 <= k < |store[board]| ==> !Matches(store[board][k], ThreadIdOf, threadId)
    ensures l.ThreadAt? ==>
      board in store && l.i < |store[board]| && Matches(store[board][l.i], ThreadIdOf, threadId) &&
      forall k :: 0 <= k < l.i ==> !Matches(store[board][k], ThreadIdOf, threadId)
  {
    if board !in store then Missing(NoBoard)
    else match Find(store[board], ThreadIdOf, threadId)
      case None => Missing(NoThread)
      case Some(i) => ThreadAt(i)
  }

  /** The thread lookup, then the first reply of that thread whose id equals `replyId`. */
  function LocateReply(store: Store, board: string, threadId: Option<string>, replyId: Option<string>): (l: Location)
    ensures l.Missing? || l.ReplyAt?
    ensures LocateThread(store, board, threadId).Missing? ==> l == LocateThread(store, board, threadId)
    ensures l.Missing? && l.absent != NoReply ==> l == LocateThread(store, board, threadId)
    ensures l == Missing(NoReply) <==>
      LocateThread(store, board, threadId).ThreadAt? &&
      var t := store[board][LocateThread(store, board, threadId).i];
      forall k :: 0 <= k < |t.replies| ==> !Matches(t.replies[k], ReplyIdOf, replyId)
    ensures l.ReplyAt? ==>
      LocateThread(store, board, threadId) == ThreadAt(l.i) &&
      var t := store[board][l.i];
      l.j < |t.replies| && Matches(t.replies[l.j], ReplyIdOf, replyId) &&
      forall k :: 0 <= k < l.j ==> !Matches(t.replies[k], ReplyIdOf, replyId)
  {
    match LocateThread(store, board, threadId)
    case Missing(a) => Missing(a)
    case ThreadAt(i) =>
      match Find(store[board][i].replies, ReplyIdOf, replyId)
      case None => Missing(NoReply)
      case Some(j) => ReplyAt(i, j)
  }

  /**
   * POST /api/threads/:board. The board is created with no threads if it is
   * missing; the new thread is appended after the existing ones.
   */
  function CreateThread(store: Store, creds: Credentials, board: string, text: string, password: string,
                        id: string, now: int): (s: Step)
    ensures s.response.ThreadCreated?
    ensures var t := s.response.thread;
      t.id == id && t.text == text && t.createdOn == now && t.bumpedOn == now && !t.reported &&
      t.deletePassword == creds.hash(password) && t.replies == [] && t.replyCount == 0
    ensures board in s.store && s.store == store[board := ThreadsOf(store, board) + [s.response.thread]]
  {
    var t := Thread(id, text, now, now, false, creds.hash(password), [], 0);
    Step(ThreadCreated(t), store[board := ThreadsOf(store, board) + [t]])
  }

  /** GET /api/threads/:board. */
  function ListRecentThreads(store: Store, board: string): (r: Response)
    ensures r.NotFound? <==> board !in store
    ensures r.NotFound? ==> r.absent == NoBoard
    ensures !r.NotFound? ==> r == ThreadList(ListView(store[board]))
  {
    if board !in store then NotFound(NoBoard) else ThreadList(ListView(store[board]))
  }

  /**
   * DELETE /api/threads/:board. A wrong password is an ordinary answer that
   * changes nothing; the right one filters the thread out of the board.
   */
  function DeleteThread(store: Store, creds: Credentials, board: string, threadId: Option<string>,
                        password: string): (s: Step)
    ensures s.response.NotFound? || s.response == IncorrectPassword || s.response == Success
    ensures s.response.NotFound? <==> LocateThread(store, board, threadId).Missing?
    ensures s.response.NotFound? ==> s.response.absent == LocateThread(store, board, threadId).absent
    ensures s.response == IncorrectPassword <==>
      LocateThread(store, board, threadId).ThreadAt? &&
      !creds.verify(password, store[board][LocateThread(store, board, threadId).i].deletePassword)
    ensures s.response != Success ==> s.store == store
    ensures s.response == Success ==>
      board in store && s.store == store[board := Without(store[board], ThreadIdOf, threadId)] &&
      forall k :: 0 <= k < |s.store[board]| ==> !Matches(s.store[board][k], ThreadIdOf, threadId)
  {
    match LocateThread(store, board, threadId)
    case Missing(a) => Step(NotFound(a), store)
    case ThreadAt(i) =>
      if !creds.verify(password, store[board][i].deletePassword) then Step(IncorrectPassword, store)
      else Step(Success, store[board := Without(store[board], ThreadIdOf, threadId)])
  }

  /** PUT /api/threads/:board. No password is asked for. */
  function ReportThread(store: Store, board: string, threadId: Option<string>): (s: Step)
    ensures s.response == Reported <==> LocateThread(store, board, threadId).ThreadAt?
    ensures s.response != Reported ==> s == Step(NotFound(LocateThread(store, board, threadId).absent), store)
    ensures s.response == Reported ==>
      var i := LocateThread(store, board, threadId).i;
      ThreadReplaced(store, s.store, board, i) && s.store[board][i] == store[board][i].(reported := true)
  {
    match LocateThread(store, board, threadId)
    case Missing(a) => Step(NotFound(a), store)
    case ThreadAt(i) =>
      var threads := store[board];
      Step(Reported, store[board := threads[i := threads[i].(reported := true)]])
  }

  /**
   * GET /api/replies/:board. The board is looked up before the query
   * parameter is checked; an empty `thread_id` counts as missing.
   */
  function GetThread(store: Store, board: string, threadId: Option<string>): (r: Response)
    ensures board !in store ==> r == NotFound(NoBoard)
    ensures board in store && (threadId == None || threadId == Some("")) ==> r == MissingThreadId
    ensures board in store && threadId != None && threadId != Some("") ==>
      match LocateThread(store, board, threadId)
      case Missing(a) => r == NotFound(a)
      case ThreadAt(i) => r == ThreadShown(DetailOf(store[board][i]))
  {
    if board !in store then NotFound(NoBoard)
    else if threadId.None? || threadId.value == "" then MissingThreadId
    else match LocateThread(store, board, threadId)
      case Missing(a) => NotFound(a)
      case ThreadAt(i) => ThreadShown(DetailOf(store[board][i]))
  }

  /**
   * POST /api/replies/:board. The reply goes at the end of the thread's
   * replies and the thread is bumped. The source's `replycount += 1` names a
   * field the schema does not have, so the stored `replyCount` stays as it was.
   */
  function CreateReply(store: Store, creds: Credentials, board: string, threadId: Option<string>,
                       text: string, password: string, id: string, now: int): (s: Step)
    ensures s.response.ReplyCreated? <==> LocateThread(store, board, threadId).ThreadAt?
    ensures !s.response.ReplyCreated? ==>
      s == Step(NotFound(LocateThread(store, board, threadId).absent), store)
    ensures s.response.ReplyCreated? ==>
      s.response.reply == Reply(id, text, now, now, false, creds.hash(password)) &&
      var i := LocateThread(store, board, threadId).i;
      ThreadReplaced(store, s.store, board, i) &&
      var before, after := store[board][i], s.store[board][i];
      after.replies == before.replies + [s.response.reply] && after.bumpedOn == now &&
      after.id == before.id && after.text == before.text && after.createdOn == before.createdOn &&
      after.reported == before.reported && after.deletePassword == before.deletePassword &&
      after.replyCount == before.replyCount
  {
    match LocateThread(store, board, threadId)
    case Missing(a) => Step(NotFound(a), store)
    case ThreadAt(i) =>
      var reply := Reply(id, text, now, now, false, creds.hash(password));
      var threads := store[board];
      var thread := threads[i].(bumpedOn := now, replies := threads[i].replies + [reply]);
      Step(ReplyCreated(reply), store[board := threads[i := thread]])
  }

  /**
   * DELETE /api/replies/:board. A soft delete: the reply keeps its place,
   * identifier, timestamps and report flag, and only its text is replaced.
   */
  function DeleteReply(store: Store, creds: Credentials, board: string, threadId: Option<string>,
                       replyId: Option<string>, password: string): (s: Step)
    ensures s.response.NotFound? || s.response == IncorrectPassword || s.response == Success
    ensures s.response.NotFound? <==> LocateReply(store, board, threadId, replyId).Missing?
    ensures s.response.NotFound? ==> s.response.absent == LocateReply(store, board, threadId, replyId).absent
    ensures s.response == IncorrectPassword <==>
      var l := LocateReply(store, board, threadId, replyId);
      l.ReplyAt? && !creds.verify(password, store[board][l.i].replies[l.j].deletePassword)
    ensures s.response != Success ==> s.store == store
    ensures s.response == Success ==>
      var l := LocateReply(store, board, threadId, replyId);
      ThreadReplaced(store, s.store, board, l.i) &&
      ReplyReplaced(store[board][l.i], s.store[board][l.i], l.j) &&
      s.store[board][l.i].replies[l.j] == store[board][l.i].replies[l.j].(text := Redacted)
  {
    match LocateReply(store, board, threadId, replyId)
    case Missing(a) => Step(NotFound(a), store)
    case ReplyAt(i, j) =>
      var threads := store[board];
      var replies := threads[i].replies;
      if !creds.verify(password, replies[j].deletePassword) then Step(IncorrectPassword, store)
      else
        var thread := threads[i].(replies := replies[j := replies[j].(text := Redacted)]);
        Step(Success, store[board := threads[i := thread]])
  }

  /** PUT /api/replies/:board. No password is asked for. */
  function ReportReply(store: Store, board: string, threadId: Option<string>, replyId: Option<string>): (s: Step)
    ensures s.response == Reported <==> LocateReply(store, board, threadId, replyId).ReplyAt?
    ensures s.response != Reported ==>
      s == Step(NotFound(LocateReply(store, board, threadId, replyId).absent), store)
    ensures s.response == Reported ==>
      var l := LocateReply(store, board, threadId, replyId);
      ThreadReplaced(store, s.store, board, l.i) &&
      ReplyReplaced(store[board][l.i], s.store[board][l.i], l.j) &&
      s.store[board][l.i].replies[l.j] == store[board][l.i].replies[l.j].(reported := true)
  {
    match LocateReply(store, board, threadId, replyId)
    case Missing(a) => Step(NotFound(a), store)
    case ReplyAt(i, j) =>
      var threads := store[board];
      var replies := threads[i].replies;
      var thread := threads[i].(replies := replies[j := replies[j].(reported := true)]);
      Step(Reported, store[board := threads[i := thread]])
  }

  // ---------------------------------------------------------------------------
  // Properties relating handlers to one another
  // ---------------------------------------------------------------------------

  /** Reporting a thread a second time answers the same and changes nothing more. */
  lemma ReportThreadIdempotent(store: Store, board: string, threadId: Option<string>)
    ensures var once := ReportThread(store, board, threadId);
      ReportThread(once.store, board, threadId) == once
  {
    var once := ReportThread(store, board, threadId);
    var l := LocateThread(store, board, threadId);
    if l.ThreadAt? {
      var before, after := store[board], once.store[board];
      assert forall k :: 0 <= k < |before| ==> ThreadIdOf(before[k]) == ThreadIdOf(after[k]);
      FindSameIds(before, after, ThreadIdOf, threadId);
      assert LocateThread(once.store, board, threadId) == l;
      assert after[l.i].(reported := true) == after[l.i];
      assert after[l.i := after[l.i]] == after;
      assert once.store[board := after] == once.store;
    }
  }

  /** A thread that is stored under the requested id is found, so it can be reported. */
  lemma ReportThreadSucceedsIfPresent(store: Store, board: string, i: nat)
    requires board in store && i < |store[board]|
    ensures ReportThread(store, board, Some(store[board][i].id)).response == Reported
  {
    assert Matches(store[board][i], ThreadIdOf, Some(store[board][i].id));
  }

  /** A reply that is stored under the requested ids is found, so it can be reported. */
  lemma ReportReplySucceedsIfPresent(store: Store, board: string, i: nat, j: nat)
    requires board in store && i < |store[board]| && j < |store[board][i].replies|
    requires DistinctIds(store[board], ThreadIdOf)
    ensures ReportReply(store, board, Some(store[board][i].id), Some(store[board][i].replies[j].id)).response == Reported
  {
    var threadId := Some(store[board][i].id);
    assert Matches(store[board][i], ThreadIdOf, threadId);
    assert LocateThread(store, board, threadId) == ThreadAt(i);
    assert Matches(store[board][i].replies[j], ReplyIdOf, Some(store[board][i].replies[j].id));
  }

  /** Replacing a thread by one with the same identifier does not move the thread lookup. */
  lemma LocateThreadAfterReplace(before: Store, after: Store, board: string, i: nat, threadId: Option<string>)
    requires ThreadReplaced(before, after, board, i) && after[board][i].id == before[board][i].id
    ensures LocateThread(after, board, threadId) == LocateThread(before, board, threadId)
  {
    var ts, ts' := before[board], after[board];
    assert forall k :: 0 <= k < |ts| ==> ThreadIdOf(ts[k]) == ThreadIdOf(ts'[k]);
    FindSameIds(ts, ts', ThreadIdOf, threadId);
  }

  /** ... nor, if the replies keep their identifiers too, the reply lookup. */
  lemma LocateReplyAfterReplace(before: Store, after: Store, board: string, i: nat,
                                threadId: Option<string>, replyId: Option<string>)
    requires ThreadReplaced(before, after, board, i) && after[board][i].id == before[board][i].id
    requires |after[board][i].replies| == |before[board][i].replies|
    requires forall k :: 0 <= k < |before[board][i].replies| ==>
      after[board][i].replies[k].id == before[board][i].replies[k].id
    ensures LocateReply(after, board, threadId, replyId) == LocateReply(before, board, threadId, replyId)
  {
    LocateThreadAfterReplace(before, after, board, i, threadId);
    var rs, rs' := before[board][i].replies, after[board][i].replies;
    assert forall k :: 0 <= k < |rs| ==> ReplyIdOf(rs[k]) == ReplyIdOf(rs'[k]);
    FindSameIds(rs, rs', ReplyIdOf, replyId);
  }

  /** Reporting a reply a second time answers the same and changes nothing more. */
  lemma ReportReplyIdempotent(store: Store, board: string, threadId: Option<string>, replyId: Option<string>)
    ensures var once := ReportReply(store, board, threadId, replyId);
      ReportReply(once.store, board, threadId, replyId) == once
  {
    var once := ReportReply(store, board, threadId, replyId);
    var l := LocateReply(store, board, threadId, replyId);
    if l.ReplyAt? {
      LocateReplyAfterReplace(store, once.store, board, l.i, threadId, replyId);
      var after := once.store[board];
      var rs' := after[l.i].replies;
      assert rs'[l.j].(reported := true) == rs'[l.j];
      assert rs'[l.j := rs'[l.j]] == rs';
      assert after[l.i].(replies := rs') == after[l.i];
      assert after[l.i := after[l.i]] == after;
      assert once.store[board := after] == once.store;
    }
  }

  /**
   * With identifiers unique, a successful delete removes exactly the thread
   * that was found and keeps the other threads in their order.
   */
  lemma DeleteThreadRemovesOnlyTarget(store: Store, creds: Credentials, board: string,
                                      threadId: Option<string>, password: string)
    requires WellFormed(store)
    requires DeleteThread(store, creds, board, threadId, password).response == Success
    ensures var i := LocateThread(store, board, threadId).i;
      DeleteThread(store, creds, board, threadId, password).store[board] == store[board][..i] + store[board][i + 1..]
  {
    var i := LocateThread(store, board, threadId).i;
    WithoutExactlyOne(store[board], ThreadIdOf, i);
  }

  /** After a successful delete, the thread view of that thread answers "thread not found". */
  lemma DeleteThreadThenGet(store: Store, creds: Credentials, board: string, threadId: Option<string>,
                            password: string)
    requires WellFormed(store)
    requires DeleteThread(store, creds, board, threadId, password).response == Success
    ensures GetThread(DeleteThread(store, creds, board, threadId, password).store, board, threadId) == NotFound(NoThread)
  {
    var i := LocateThread(store, board, threadId).i;
    assert store[board][i] in store[board];
    assert threadId != Some("");
  }

  /**
   * A reply just created shows up last in the thread view with the fields
   * it was created with, and the thread shows as bumped.
   */
  lemma CreateReplyThenGet(store: Store, creds: Credentials, board: string, threadId: Option<string>,
                           text: string, password: string, id: string, now: int)
    requires WellFormed(store)
    requires CreateReply(store, creds, board, threadId, text, password, id, now).response.ReplyCreated?
    ensures var before := store[board][LocateThread(store, board, threadId).i];
      var r := GetThread(CreateReply(store, creds, board, threadId, text, password, id, now).store, board, threadId);
      r.ThreadShown? && r.detail.bumpedOn == now &&
      r.detail.replies == DetailOf(before).replies + [ReplyDetail(id, text, now, now)]
  {
    var s := CreateReply(store, creds, board, threadId, text, password, id, now);
    var i := LocateThread(store, board, threadId).i;
    assert store[board][i] in store[board];
    assert threadId != Some("");
    assert forall k :: 0 <= k < |store[board]| ==> ThreadIdOf(store[board][k]) == ThreadIdOf(s.store[board][k]);
    FindSameIds(store[board], s.store[board], ThreadIdOf, threadId);
    assert LocateThread(s.store, board, threadId) == ThreadAt(i);
  }

  /**
   * A reply deleted with the right password stays in the thread view, at the
   * same place and with its identifier and timestamps, showing the redacted text.
   */
  lemma DeleteReplyThenGet(store: Store, creds: Credentials, board: string, threadId: Option<string>,
                           replyId: Option<string>, password: string)
    requires WellFormed(store)
    requires DeleteReply(store, creds, board, threadId, replyId, password).response == Success
    ensures var l := LocateReply(store, board, threadId, replyId);
      var reply := store[board][l.i].replies[l.j];
      var r := GetThread(DeleteReply(store, creds, board, threadId, replyId, password).store, board, threadId);
      r.ThreadShown? && |r.detail.replies| == |store[board][l.i].replies| &&
      r.detail.replies[l.j] == ReplyDetail(reply.id, Redacted, reply.createdOn, reply.bumpedOn)
  {
    var s := DeleteReply(store, creds, board, threadId, replyId, password);
    var l := LocateReply(store, board, threadId, replyId);
    assert store[board][l.i] in store[board];
    assert threadId != Some("");
    assert forall k :: 0 <= k < |store[board]| ==> ThreadIdOf(store[board][k]) == ThreadIdOf(s.store[board][k]);
    FindSameIds(store[board], s.store[board], ThreadIdOf, threadId);
    assert LocateThread(s.store, board, threadId) == ThreadAt(l.i);
  }

  /**
   * A thread created later than every thread of its board was bumped heads
   * the board's list, with no replies.
   */
  lemma CreateThreadThenList(store: Store, creds: Credentials, board: string, text: string, password: string,
                             id: string, now: int)
    requires forall k :: 0 <= k < |ThreadsOf(store, board)| ==> ThreadsOf(store, board)[k].bumpedOn < now
    ensures var r := ListRecentThreads(CreateThread(store, creds, board, text, password, id, now).store, board);
      r.ThreadList? && |r.threads| > 0 && r.threads[0] == ThreadSummary(id, text, now, now, [])
  {
    var s := CreateThread(store, creds, board, text, password, id, now);
    var existing := ThreadsOf(store, board);
    SortDescNewest(existing, s.response.thread, BumpedOn);
    assert SortDesc([], ReplyCreatedOn) == [];
  }

  /**
   * The delete scenario end to end: a thread created with password `pw`
   * survives a delete with another password, untouched; a delete with `pw`
   * succeeds; the thread view then answers "thread not found".
   */
  lemma CreateThenDeleteThread(store: Store, creds: Credentials, board: string, text: string,
                               pw: string, wrong: string, id: string, now: int)
    requires WellFormed(store) && Fresh(store, id)
    requires creds.verify(pw, creds.hash(pw)) && !creds.verify(wrong, creds.hash(pw))
    ensures var created := CreateThread(store, creds, board, text, pw, id, now);
      var refused := DeleteThread(created.store, creds, board, Some(id), wrong);
      var deleted := DeleteThread(refused.store, creds, board, Some(id), pw);
      refused == Step(IncorrectPassword, created.store) &&
      deleted.response == Success &&
      GetThread(deleted.store, board, Some(id)) == NotFound(NoThread)
  {
    var created := CreateThread(store, creds, board, text, pw, id, now);
    var before := ThreadsOf(store, board);
    forall k | 0 <= k < |before| ensures !Matches(before[k], ThreadIdOf, Some(id)) {
      assert before[k] in store[board];
    }
    var after := created.store[board];
    assert after == before + [created.response.thread];
    assert Matches(after[|before|], ThreadIdOf, Some(id));
    assert forall k :: 0 <= k < |before| ==> after[k] == before[k];
    assert LocateThread(created.store, board, Some(id)) == ThreadAt(|before|);
    CreateThreadKeepsWellFormed(store, creds, board, text, pw, id, now);
    DeleteThreadThenGet(created.store, creds, board, Some(id), pw);
  }

  // ---------------------------------------------------------------------------
  // The handlers keep the identifier invariant
  // ---------------------------------------------------------------------------

  /** Replacing one thread by a well-formed one with the same identifier keeps the store well formed. */
  lemma ReplacingThreadKeepsWellFormed(before: Store, after: Store, board: string, i: nat)
    requires WellFormed(before) && ThreadReplaced(before, after, board, i)
    requires after[board][i].id == before[board][i].id && WellFormedThread(after[board][i])
    ensures WellFormed(after)
  {
  }

  lemma CreateThreadKeepsWellFormed(store: Store, creds: Credentials, board: string, text: string,
                                    password: string, id: string, now: int)
    requires WellFormed(store) && Fresh(store, id)
    ensures WellFormed(CreateThread(store, creds, board, text, password, id, now).store)
  {
  }

  lemma DeleteThreadKeepsWellFormed(store: Store, creds: Credentials, board: string, threadId: Option<string>,
                                    password: string)
    requires WellFormed(store)
    ensures WellFormed(DeleteThread(store, creds, board, threadId, password).store)
  {
    var s := DeleteThread(store, creds, board, threadId, password);
    if s.response == Success {
      DeleteThreadRemovesOnlyTarget(store, creds, board, threadId, password);
      var ts := store[board];
      var i := LocateThread(store, board, threadId).i;
      var ts' := s.store[board];
      assert forall k :: 0 <= k < |ts'| ==> ts'[k] == if k < i then ts[k] else ts[k + 1];
      assert DistinctIds(ts', ThreadIdOf);
    }
  }

  lemma ReportThreadKeepsWellFormed(store: Store, board: string, threadId: Option<string>)
    requires WellFormed(store)
    ensures WellFormed(ReportThread(store, board, threadId).store)
  {
    var s := ReportThread(store, board, threadId);
    if s.response == Reported {
      var i := LocateThread(store, board, threadId).i;
      assert store[board][i] in store[board];
      ReplacingThreadKeepsWellFormed(store, s.store, board, i);
    }
  }

  lemma CreateReplyKeepsWellFormed(store: Store, creds: Credentials, board: string, threadId: Option<string>,
                                   text: string, password: string, id: string, now: int)
    requires WellFormed(store) && Fresh(store, id)
    ensures WellFormed(CreateReply(store, creds, board, threadId, text, password, id, now).store)
  {
    var s := CreateReply(store, creds, board, threadId, text, password, id, now);
    if s.response.ReplyCreated? {
      var i := LocateThread(store, board, threadId).i;
      var before, after := store[board][i], s.store[board][i];
      assert before in store[board];
      assert WellFormedThread(before);
      forall r | r in before.replies ensures r.id != id {
      }
      assert DistinctIds(after.replies, ReplyIdOf) by {
        forall a, b | 0 <= a < b < |after.replies| ensures after.replies[a].id != after.replies[b].id {
          if b == |before.replies| {
            assert after.replies[a] in before.replies;
          }
        }
      }
      ReplacingThreadKeepsWellFormed(store, s.store, board, i);
    }
  }

  lemma DeleteReplyKeepsWellFormed(store: Store, creds: Credentials, board: string, threadId: Option<string>,
                                   replyId: Option<string>, password: string)
    requires WellFormed(store)
    ensures WellFormed(DeleteReply(store, creds, board, threadId, replyId, password).store)
  {
    var s := DeleteReply(store, creds, board, threadId, replyId, password);
    if s.response == Success {
      var l := LocateReply(store, board, threadId, replyId);
      var t, t' := store[board][l.i], s.store[board][l.i];
      assert t in store[board];
      assert forall k :: 0 <= k < |t.replies| ==> ReplyIdOf(t'.replies[k]) == ReplyIdOf(t.replies[k]);
      assert forall r | r in t'.replies :: r.id != "" by {
        forall r | r in t'.replies ensures r.id != "" {
          var k :| 0 <= k < |t'.replies| && t'.replies[k] == r;
          assert t.replies[k] in t.replies;
        }
      }
      ReplacingThreadKeepsWellFormed(store, s.store, board, l.i);
    }
  }

  lemma ReportReplyKeepsWellFormed(store: Store, board: string, threadId: Option<string>, replyId: Option<string>)
    requires WellFormed(store)
    ensures WellFormed(ReportReply(store, board, threadId, replyId).store)
  {
    var s := ReportReply(store, board, threadId, replyId);
    if s.response == Reported {
      var l := LocateReply(store, board, threadId, replyId);
      var t, t' := store[board][l.i], s.store[board][l.i];
      assert t in store[board];
      assert forall k :: 0 <= k < |t.replies| ==> ReplyIdOf(t'.replies[k]) == ReplyIdOf(t.replies[k]);
      assert forall r | r in t'.replies :: r.id != "" by {
        forall r | r in t'.replies ensures r.id != "" {
          var k :| 0 <= k < |t'.replies| && t'.replies[k] == r;
          assert t.replies[k] in t.replies;
        }
      }
      ReplacingThreadKeepsWellFormed(store, s.store, board, l.i);
    }
  }
}
