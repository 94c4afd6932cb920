/** New-message detection of main.js: each thread's current message count is compared with
    the count stored by the previous run, and exactly the new tail is mailed. */
module Detection {
  import opened Common

  /** A thread as main.js keeps it and writes it to the threads file: its page, its subject
      and the messages `readThreadsContents` read. */
  datatype ThreadRecord = ThreadRecord(url: string, subject: string, messages: seq<Message>)

  /** `nPrevious`: the number of messages the previous run stored for `id`, or 0 when the
      thread was not stored. */
  function PreviousCount(previous: map<string, ThreadRecord>, id: string): nat
  {
    if id in previous then |previous[id].messages| else 0
  }

  /** How many messages are new when `current` are present and `seen` were stored; a thread
      that shrank or did not grow has none. */
  function NewCount(current: nat, seen: nat): nat
  {
    if current <= seen then 0 else current - seen
  }

  /** The email for message `i` of `t`: the thread subject followed by ` -- ` and the author,
      with the message body as text. */
  function MessageEmail(cfg: Config, t: ThreadRecord, i: nat): Email
    requires i < |t.messages|
  {
    Email(cfg.from, cfg.to, t.subject + " -- " + t.messages[i].author, t.messages[i].body, None, None)
  }

  /** The emails for messages `from`, `from + 1`, ... of `t`, in ascending order: one per
      message from `from` on, each naming that message's author and carrying its body. */
  function ThreadEmails(cfg: Config, t: ThreadRecord, from: nat): (r: seq<Email>)
    ensures |r| == NewCount(|t.messages|, from)
    ensures forall k :: 0 <= k < |r| ==>
      && from + k < |t.messages|
      && r[k].from == cfg.from && r[k].to == cfg.to
      && r[k].subject == t.subject + " -- " + t.messages[from + k].author
      && r[k].text == t.messages[from + k].body
      && r[k].date.None? && r[k].attachments.None?
    decreases |t.messages| - from
  {
    if |t.messages| <= from then []
    else [MessageEmail(cfg, t, from)] + ThreadEmails(cfg, t, from + 1)
  }

  /** The number of new messages over the threads `order` names. */
  function TotalNew(threads: map<string, ThreadRecord>, order: seq<string>, previous: map<string, ThreadRecord>): nat
    requires forall k :: 0 <= k < |order| ==> order[k] in threads
  {
    if order == [] then 0
    else
      var n := |order| - 1;
      TotalNew(threads, order[..n], previous)
      + NewCount(|threads[order[n]].messages|, PreviousCount(previous, order[n]))
  }

  /** `order` lists every key of `threads` exactly once, as `Object.entries(threads)` does. */
  predicate ListsEachKeyOnce(order: seq<string>, threads: map<string, ThreadRecord>)
  {
    && (forall k :: 0 <= k < |order| ==> order[k] in threads)
    && (forall id :: id in threads ==> id in order)
    && (forall j, k :: 0 <= j < k < |order| ==> order[j] != order[k])
  }

  /** The emails for the threads `order` names, in that order: each thread contributes the
      emails for its messages from `nPrevious` on. */
  function DetectOver(
    cfg: Config, threads: map<string, ThreadRecord>, order: seq<string>, previous: map<string, ThreadRecord>)
    : (r: seq<Email>)
    requires forall k :: 0 <= k < |order| ==> order[k] in threads
    ensures |r| == TotalNew(threads, order, previous)
  {
    if order == [] then []
    else
      var n := |order| - 1;
      var id := order[n];
      DetectOver(cfg, threads, order[..n], previous)
      + ThreadEmails(cfg, threads[id], PreviousCount(previous, id))
  }

  /** The emails of the main block, with the threads visited in `order`, the enumeration
      order of `Object.entries(threads)`. As many emails as there are new messages, and
      every message past a thread's stored count is mailed. */
  function DetectNewMessages(
    cfg: Config, threads: map<string, ThreadRecord>, order: seq<string>, previous: map<string, ThreadRecord>)
    : (r: seq<Email>)
    requires ListsEachKeyOnce(order, threads)
    ensures |r| == TotalNew(threads, order, previous)
    ensures forall id, m :: id in threads && PreviousCount(previous, id) <= m < |threads[id].messages| ==>
      MessageEmail(cfg, threads[id], m) in r
  {
    EveryNewMessageDetected(cfg, threads, order, previous);
    DetectOver(cfg, threads, order, previous)
  }

  /** When `order` names every thread, every message past a thread's stored count is among
      the detected emails. */
  lemma EveryNewMessageDetected(
    cfg: Config, threads: map<string, ThreadRecord>, order: seq<string>, previous: map<string, ThreadRecord>)
    requires forall k :: 0 <= k < |order| ==> order[k] in threads
    requires forall id :: id in threads ==> id in order
    ensures forall id, m :: id in threads && PreviousCount(previous, id) <= m < |threads[id].messages| ==>
      MessageEmail(cfg, threads[id], m) in DetectOver(cfg, threads, order, previous)
  {
    forall id, m | id in threads && PreviousCount(previous, id) <= m < |threads[id].messages|
      ensures MessageEmail(cfg, threads[id], m) in DetectOver(cfg, threads, order, previous)
    {
      var b :| 0 <= b < |order| && order[b] == id;
      NewMessageDetected(cfg, threads, order, previous, b, m);
    }
  }

  /** Message `m` of the thread at position `b` of `order`, when past its stored count, is
      among the detected emails. */
  lemma NewMessageDetected(
    cfg: Config, threads: map<string, ThreadRecord>, order: seq<string>,
    previous: map<string, ThreadRecord>, b: nat, m: nat)
    requires forall k :: 0 <= k < |order| ==> order[k] in threads
    requires b < |order|
    requires PreviousCount(previous, order[b]) <= m < |threads[order[b]].messages|
    ensures MessageEmail(cfg, threads[order[b]], m) in DetectOver(cfg, threads, order, previous)
  {
    var k := m - PreviousCount(previous, order[b]);
    DetectedAt(cfg, threads, order, previous, b, k);
    EntryIn(DetectOver(cfg, threads, order, previous), TotalNew(threads, order[..b], previous) + k);
  }

  /** An entry of a list is a member of it. */
  lemma EntryIn(r: seq<Email>, p: nat)
    requires p < |r|
    ensures r[p] in r
  {
  }

  /** The `k`-th new message of the thread at position `b` of `order` is mailed right after
      the new messages of the threads before it, and it is message `nPrevious + k`. */
  lemma {:induction false} DetectedAt(
    cfg: Config, threads: map<string, ThreadRecord>, order: seq<string>,
    previous: map<string, ThreadRecord>, b: nat, k: nat)
    requires forall j :: 0 <= j < |order| ==> order[j] in threads
    requires b < |order|
    requires k < NewCount(|threads[order[b]].messages|, PreviousCount(previous, order[b]))
    ensures var r := DetectOver(cfg, threads, order, previous);
      var p := TotalNew(threads, order[..b], previous);
      var m := PreviousCount(previous, order[b]) + k;
      && p + k < |r|
      && m < |threads[order[b]].messages|
      && r[p + k] == MessageEmail(cfg, threads[order[b]], m)
    decreases |order|, 1
  {
    var n := |order| - 1;
    if b < n {
      DetectedBefore(cfg, threads, order, previous, b, k);
    } else {
      DetectedInLast(cfg, threads, order, previous, k);
    }
  }

  /** The step of `DetectedAt` for a thread before the last one of `order`: the emails of
      the earlier threads are a prefix of the whole list. */
  lemma {:induction false} DetectedBefore(
    cfg: Config, threads: map<string, ThreadRecord>, order: seq<string>,
    previous: map<string, ThreadRecord>, b: nat, k: nat)
    requires forall j :: 0 <= j < |order| ==> order[j] in threads
    requires b < |order| - 1
    requires k < NewCount(|threads[order[b]].messages|, PreviousCount(previous, order[b]))
    ensures var r := DetectOver(cfg, threads, order, previous);
      var p := TotalNew(threads, order[..b], previous);
      var m := PreviousCount(previous, order[b]) + k;
      && p + k < |r|
      && m < |threads[order[b]].messages|
      && r[p + k] == MessageEmail(cfg, threads[order[b]], m)
    decreases |order|, 0
  {
    var n := |order| - 1;
    var front := order[..n];
    assert front[..b] == order[..b];
    DetectedAt(cfg, threads, front, previous, b, k);
    var earlier := DetectOver(cfg, threads, front, previous);
    assert DetectOver(cfg, threads, order, previous)[..|earlier|] == earlier;
  }

  /** The step of `DetectedAt` for the last thread of `order`: its emails follow those of
      all the threads before it. */
  lemma DetectedInLast(
    cfg: Config, threads: map<string, ThreadRecord>, order: seq<string>,
    previous: map<string, ThreadRecord>, k: nat)
    requires forall j :: 0 <= j < |order| ==> order[j] in threads
    requires |order| > 0
    requires k < NewCount(|threads[order[|order| - 1]].messages|, PreviousCount(previous, order[|order| - 1]))
    ensures var b := |order| - 1;
      var r := DetectOver(cfg, threads, order, previous);
      var p := TotalNew(threads, order[..b], previous);
      var m := PreviousCount(previous, order[b]) + k;
      && p + k < |r|
      && m < |threads[order[b]].messages|
      && r[p + k] == MessageEmail(cfg, threads[order[b]], m)
  {
    var n := |order| - 1;
    var last := ThreadEmails(cfg, threads[order[n]], PreviousCount(previous, order[n]));
    var earlier := DetectOver(cfg, threads, order[..n], previous);
    assert DetectOver(cfg, threads, order, previous) == earlier + last;
    ThreadEmailAt(cfg, threads[order[n]], PreviousCount(previous, order[n]), k);
  }

  /** Entry `k` of `ThreadEmails(cfg, t, from)` is the email for message `from + k`. */
  lemma ThreadEmailAt(cfg: Config, t: ThreadRecord, from: nat, k: nat)
    requires k < NewCount(|t.messages|, from)
    ensures from + k < |t.messages|
    ensures ThreadEmails(cfg, t, from)[k] == MessageEmail(cfg, t, from + k)
  {
  }

  /** Idempotence: when the stored threads are the current ones, as main.js writes them after
      a run without failures, nothing is mailed. */
  lemma {:induction false} NothingNewWhenStored(
    cfg: Config, threads: map<string, ThreadRecord>, order: seq<string>)
    requires forall k :: 0 <= k < |order| ==> order[k] in threads
    ensures DetectOver(cfg, threads, order, threads) == []
    decreases |order|
  {
    if order != [] {
      var n := |order| - 1;
      NothingNewWhenStored(cfg, threads, order[..n]);
      assert PreviousCount(threads, order[n]) == |threads[order[n]].messages|;
    }
  }

  /** A thread whose stored count is at least its current count, because it did not grow or
      because messages were deleted, adds nothing; a thread that was not stored has all its
      messages mailed. */
  lemma ThreadBlockBounds(cfg: Config, t: ThreadRecord, id: string, previous: map<string, ThreadRecord>)
    ensures |t.messages| <= PreviousCount(previous, id) ==> ThreadEmails(cfg, t, PreviousCount(previous, id)) == []
    ensures id !in previous ==> |ThreadEmails(cfg, t, PreviousCount(previous, id))| == |t.messages|
  {
  }

  /** The loops of the main block: for each thread in `order`, push one email per message
      from `nPrevious` up to the current count. */
  method CollectNewMessages(
    cfg: Config, threads: map<string, ThreadRecord>, order: seq<string>, previous: map<string, ThreadRecord>)
    returns (emails: seq<Email>)
    requires ListsEachKeyOnce(order, threads)
    ensures emails == DetectNewMessages(cfg, threads, order, previous)
  {
    emails := [];
    var b := 0;
    while b < |order|
      invariant 0 <= b <= |order|
      invariant emails == DetectOver(cfg, threads, order[..b], previous)
    {
      var id := order[b];
      var thread := threads[id];
      var nPrevious := PreviousCount(previous, id);
      var nCurrent := |thread.messages|;
      var tail := [];
      if nPrevious < nCurrent {
        tail := NewTail(cfg, thread, nPrevious);
      }
      assert order[..b + 1][..b] == order[..b];
      emails := emails + tail;
      b := b + 1;
    }
    assert order[..b] == order;
  }

  /** The inner loop: `for (let i = nPrevious; i < nCurrent; ++i) emails.push(...)`. */
  method NewTail(cfg: Config, t: ThreadRecord, nPrevious: nat) returns (tail: seq<Email>)
    ensures tail == ThreadEmails(cfg, t, nPrevious)
  {
    tail := [];
    var i := nPrevious;
    while i < |t.messages|
      invariant nPrevious <= i
      invariant i <= |t.messages| || i == nPrevious
      invariant |tail| == i - nPrevious
      invariant forall k :: 0 <= k < |tail| ==> tail[k] == MessageEmail(cfg, t, nPrevious + k)
    {
      tail := tail + [MessageEmail(cfg, t, i)];
      i := i + 1;
    }
    TailIsThreadEmails(cfg, t, nPrevious, tail);
  }

  /** A list holding the emails for messages `from`, `from + 1`, ... up to the last one is
      the thread's new tail. */
  lemma TailIsThreadEmails(cfg: Config, t: ThreadRecord, from: nat, tail: seq<Email>)
    requires |tail| == NewCount(|t.messages|, from)
    requires forall k :: 0 <= k < |tail| ==> from + k < |t.messages| && tail[k] == MessageEmail(cfg, t, from + k)
    ensures tail == ThreadEmails(cfg, t, from)
  {
    var r := ThreadEmails(cfg, t, from);
    forall k | 0 <= k < |tail|
      ensures tail[k] == r[k]
    {
      ThreadEmailsAt(cfg, t, from, k);
    }
  }

  /** Entry `k` of a thread's tail is the email for message `from + k`. */
  lemma {:induction false} ThreadEmailsAt(cfg: Config, t: ThreadRecord, from: nat, k: nat)
    requires from + k < |t.messages|
    ensures k < |ThreadEmails(cfg, t, from)|
    ensures ThreadEmails(cfg, t, from)[k] == MessageEmail(cfg, t, from + k)
    decreases k
  {
    if k > 0 {
      ThreadEmailsAt(cfg, t, from + 1, k - 1);
    }
  }
}
