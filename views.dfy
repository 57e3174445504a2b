/**
 * The two read views of a board: the recent-threads list (GET /api/threads)
 * and the full thread (GET /api/replies). Both are projections: they expose
 * a fixed set of fields and never the password hash, the report flag or the
 * reply counter.
 */
module Views {
  import opened Models
  import opened Sequences
  import opened StableSort

  const MaxThreads: nat := 10
  const MaxReplies: nat := 3

  /** A reply as the list view shows it. */
  datatype ReplySummary = ReplySummary(id: string, text: string, createdOn: int)

  /** A thread as the list view shows it, with its latest replies. */
  datatype ThreadSummary = ThreadSummary(id: string, text: string, createdOn: int, bumpedOn: int, replies: seq<ReplySummary>)

  /** A reply as the thread view shows it. */
  datatype ReplyDetail = ReplyDetail(id: string, text: string, createdOn: int, bumpedOn: int)

  /** A thread as the thread view shows it, with every reply. */
  datatype ThreadDetail = ThreadDetail(id: string, text: string, createdOn: int, bumpedOn: int, replies: seq<ReplyDetail>)

  /** A reply's entry in the list: its id, text and creation time, and nothing else. */
  function SummarizeReply(r: Reply): (v: ReplySummary)
    ensures v.id == r.id && v.text == r.text && v.createdOn == r.createdOn
  {
    ReplySummary(r.id, r.text, r.createdOn)
  }

  /**
   * A thread's entry in the list: its id, text and timestamps, and its three
   * most recently created replies, newest first.
   */
  function SummarizeThread(t: Thread): (v: ThreadSummary)
    ensures v.id == t.id && v.text == t.text && v.createdOn == t.createdOn && v.bumpedOn == t.bumpedOn
    ensures |v.replies| == if |t.replies| < MaxReplies then |t.replies| else MaxReplies
    ensures forall a, b :: 0 <= a < b < |v.replies| ==> v.replies[a].createdOn >= v.replies[b].createdOn
    ensures forall a :: 0 <= a < |v.replies| ==>
      exists m :: 0 <= m < |t.replies| && v.replies[a] == SummarizeReply(t.replies[m])
  {
    var kept := TopN(t.replies, ReplyCreatedOn, MaxReplies);
    forall a | 0 <= a < |kept|
      ensures exists m :: 0 <= m < |t.replies| && kept[a] == t.replies[m]
    {
      assert kept[a] in multiset(kept);
      assert kept[a] in t.replies;
    }
    ThreadSummary(t.id, t.text, t.createdOn, t.bumpedOn, Map(SummarizeReply, kept))
  }

  /** The list view: the ten most recently bumped threads, most recent first. */
  function ListView(threads: seq<Thread>): (v: seq<ThreadSummary>)
    ensures |v| == if |threads| < MaxThreads then |threads| else MaxThreads
    ensures forall i :: 0 <= i < |v| ==> |v[i].replies| <= MaxReplies
  {
    Map(SummarizeThread, TopN(threads, BumpedOn, MaxThreads))
  }

  /** The thread view: the thread and every reply, in stored order. */
  function DetailOf(t: Thread): (d: ThreadDetail)
    ensures d.id == t.id && d.text == t.text && d.createdOn == t.createdOn && d.bumpedOn == t.bumpedOn
    ensures |d.replies| == |t.replies|
    ensures forall k :: 0 <= k < |t.replies| ==>
      d.replies[k] == ReplyDetail(t.replies[k].id, t.replies[k].text, t.replies[k].createdOn, t.replies[k].bumpedOn)
  {
    ThreadDetail(t.id, t.text, t.createdOn, t.bumpedOn,
      Map((r: Reply) => ReplyDetail(r.id, r.text, r.createdOn, r.bumpedOn), t.replies))
  }

  /**
   * The list is ordered: threads by non-increasing `bumpedOn`, and within
   * each thread the replies by non-increasing `createdOn`.
   */
  lemma ListViewOrdered(threads: seq<Thread>)
    ensures forall i, j :: 0 <= i < j < |ListView(threads)| ==>
      ListView(threads)[i].bumpedOn >= ListView(threads)[j].bumpedOn
    ensures forall i, a, b :: 0 <= i < |ListView(threads)| && 0 <= a < b < |ListView(threads)[i].replies| ==>
      ListView(threads)[i].replies[a].createdOn >= ListView(threads)[i].replies[b].createdOn
  {
    var top := TopN(threads, BumpedOn, MaxThreads);
    assert Descending(top, BumpedOn);
  }

  /**
   * The list shows exactly the first ten of any stable most-recent-first
   * arrangement of the stored threads.
   */
  lemma ListViewIsStableSortPrefix(threads: seq<Thread>, arranged: seq<Thread>)
    requires Descending(arranged, BumpedOn)
    requires forall k :: WithKey(arranged, BumpedOn, k) == WithKey(threads, BumpedOn, k)
    ensures ListView(threads) == Map(SummarizeThread, Take(arranged, MaxThreads))
  {
    SortDescCharacterized(threads, BumpedOn, arranged);
  }

  /** Each listed thread shows the first three of any stable newest-first arrangement of its replies. */
  lemma SummaryRepliesAreStableSortPrefix(t: Thread, arranged: seq<Reply>)
    requires Descending(arranged, ReplyCreatedOn)
    requires forall k :: WithKey(arranged, ReplyCreatedOn, k) == WithKey(t.replies, ReplyCreatedOn, k)
    ensures SummarizeThread(t).replies == Map(SummarizeReply, Take(arranged, MaxReplies))
  {
    SortDescCharacterized(t.replies, ReplyCreatedOn, arranged);
  }

  /**
   * No stored thread whose entry is missing from the list was bumped later
   * than any thread the list shows.
   */
  lemma ListViewShowsLatest(threads: seq<Thread>, y: Thread, i: nat)
    requires y in threads && SummarizeThread(y) !in ListView(threads)
    requires i < |ListView(threads)|
    ensures ListView(threads)[i].bumpedOn >= y.bumpedOn
  {
    var top := TopN(threads, BumpedOn, MaxThreads);
    assert y !in top;
    assert y in multiset(threads) - multiset(top);
    TopNKeepsLargest(threads, BumpedOn, MaxThreads);
    assert top[i] in top;
  }

  /** Blanks every field the list view must not depend on. */
  function HideReply(r: Reply): Reply
  {
    r.(bumpedOn := 0, reported := false, deletePassword := "")
  }

  function HideThread(t: Thread): Thread
  {
    t.(reported := false, deletePassword := "", replyCount := 0, replies := Map(HideReply, t.replies))
  }

  /**
   * The list view does not depend on password hashes, report flags, the
   * reply counter or the replies' `bumpedOn`: blanking them changes nothing.
   */
  lemma ListViewHidesPrivateFields(threads: seq<Thread>)
    ensures ListView(Map(HideThread, threads)) == ListView(threads)
  {
    SortDescMap(HideThread, threads, BumpedOn);
    TakeMap(HideThread, SortDesc(threads, BumpedOn), MaxThreads);
    var top := TopN(threads, BumpedOn, MaxThreads);
    forall t: Thread ensures SummarizeThread(HideThread(t)) == SummarizeThread(t) {
      SortDescMap(HideReply, t.replies, ReplyCreatedOn);
      TakeMap(HideReply, SortDesc(t.replies, ReplyCreatedOn), MaxReplies);
      var kept := TopN(t.replies, ReplyCreatedOn, MaxReplies);
      assert Map(SummarizeReply, Map(HideReply, kept)) == Map(SummarizeReply, kept);
    }
    assert Map(SummarizeThread, Map(HideThread, top)) == Map(SummarizeThread, top);
  }
}
