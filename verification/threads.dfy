/** Parent/teacher threads ("Kommunikation Eltern/Fachlehrer") as aktuelles.js mails them:
    `buildEmailsForThreads` makes sure every thread has an entry in the processed state and
    emits one email per message. */
module Threads {
  import opened Common
  import opened Processed

  /** A thread with the messages `readThreadsContents` read for it. */
  datatype Thread = Thread(id: string, url: string, subject: string, messages: seq<Message>)

  /** A teacher with the threads `readThreadsMeta` read for them. */
  datatype Teacher = Teacher(id: string, url: string, name: string, threads: seq<Thread>)

  /** The threads of all teachers, teacher by teacher. */
  function AllThreads(teachers: seq<Teacher>): seq<Thread>
  {
    if teachers == [] then []
    else AllThreads(teachers[..|teachers| - 1]) + teachers[|teachers| - 1].threads
  }

  /** The number of messages in `threads`. */
  function TotalMessages(threads: seq<Thread>): nat
  {
    if threads == [] then 0
    else TotalMessages(threads[..|threads| - 1]) + |threads[|threads| - 1].messages|
  }

  /** The item for message `i` of thread `t`: the thread subject, the message body, and the
      callback `processedThreads[t.id][i] = 1`. */
  function MessageItem(cfg: Config, t: Thread, i: nat): Outgoing
    requires i < |t.messages|
  {
    Outgoing(Email(cfg.from, cfg.to, t.subject, t.messages[i].body, None, None), MarkMessage(t.id, i))
  }

  /** The items for all messages of `t`, by ascending index. */
  function MessageItems(cfg: Config, t: Thread): seq<Outgoing>
  {
    seq(|t.messages|, i requires 0 <= i < |t.messages| => MessageItem(cfg, t, i))
  }

  /** The items for all messages of `threads`: thread by thread, and within a thread by
      ascending index. */
  function ThreadsItems(cfg: Config, threads: seq<Thread>): (r: seq<Outgoing>)
    ensures |r| == TotalMessages(threads)
  {
    if threads == [] then []
    else ThreadsItems(cfg, threads[..|threads| - 1]) + MessageItems(cfg, threads[|threads| - 1])
  }

  /** Message `i` of `threads[b]` is emailed right after all messages of the threads before
      it, and the messages of one thread go out by ascending index. */
  lemma {:induction false} ThreadsItemsAt(cfg: Config, threads: seq<Thread>, b: nat, i: nat)
    requires b < |threads| && i < |threads[b].messages|
    ensures TotalMessages(threads[..b]) + i < TotalMessages(threads)
    ensures ThreadsItems(cfg, threads)[TotalMessages(threads[..b]) + i]
         == MessageItem(cfg, threads[b], i)
    decreases |threads|
  {
    var n := |threads| - 1;
    var front := threads[..n];
    assert threads[..n] == front;
    if b < n {
      assert front[..b] == threads[..b];
      ThreadsItemsAt(cfg, front, b, i);
    }
  }

  lemma AppendThread(cfg: Config, processed: map<string, map<nat, int>>, ts: seq<Thread>, t: Thread)
    ensures ThreadsItems(cfg, ts + [t]) == ThreadsItems(cfg, ts) + MessageItems(cfg, t)
    ensures EntriesFor(processed, ts + [t]) ==
      var m := EntriesFor(processed, ts); if t.id in m then m else m[t.id := map[]]
  {
    assert (ts + [t])[..|ts|] == ts;
  }

  lemma ExtendSeen(done: seq<Thread>, threads: seq<Thread>, b: nat)
    requires b < |threads|
    ensures done + threads[..b + 1] == (done + threads[..b]) + [threads[b]]
  {
    assert threads[..b + 1] == threads[..b] + [threads[b]];
  }

  lemma AppendTeacher(teachers: seq<Teacher>, a: nat)
    requires a < |teachers|
    ensures AllThreads(teachers[..a + 1]) == AllThreads(teachers[..a]) + teachers[a].threads
  {
    assert teachers[..a + 1][..a] == teachers[..a];
  }

  /** `processed` with an entry added for every thread of `threads` that has none. */
  function EntriesFor(processed: map<string, map<nat, int>>, threads: seq<Thread>)
    : map<string, map<nat, int>>
  {
    if threads == [] then processed
    else
      var n := |threads| - 1;
      var m := EntriesFor(processed, threads[..n]);
      if threads[n].id in m then m else m[threads[n].id := map[]]
  }

  /** After the entries are made, every thread id of `threads` is a key; entries that existed
      are unchanged; the new ones are empty; no other key appears. */
  lemma {:induction false} EntriesForSpec(processed: map<string, map<nat, int>>, threads: seq<Thread>)
    ensures var r := EntriesFor(processed, threads);
      && r.Keys == processed.Keys + (set t | t in threads :: t.id)
      && (forall id :: id in processed ==> r[id] == processed[id])
      && (forall id :: id in r && id !in processed ==> r[id] == map[])
    decreases |threads|
  {
    if threads != [] {
      var n := |threads| - 1;
      EntriesForSpec(processed, threads[..n]);
      assert forall t :: t in threads <==> t in threads[..n] || t == threads[n] by {
        assert threads == threads[..n] + [threads[n]];
      }
    }
  }

  /** `buildEmailsForThreads(teachers, processedThreads)`: loops over teachers, their
      threads and the messages of each thread. It returns the emails and the updated
      `processedThreads`. Every message is emailed, whatever `processedThreads` already
      records for it. */
  method BuildEmailsForThreads(
    cfg: Config, teachers: seq<Teacher>, processed: map<string, map<nat, int>>)
    returns (items: seq<Outgoing>, updated: map<string, map<nat, int>>)
    ensures items == ThreadsItems(cfg, AllThreads(teachers))
    ensures updated == EntriesFor(processed, AllThreads(teachers))
  {
    items := [];
    updated := processed;
    var a := 0;
    while a < |teachers|
      invariant 0 <= a <= |teachers|
      invariant items == ThreadsItems(cfg, AllThreads(teachers[..a]))
      invariant updated == EntriesFor(processed, AllThreads(teachers[..a]))
    {
      items, updated := AddTeacher(cfg, processed, AllThreads(teachers[..a]), teachers[a].threads, items, updated);
      AppendTeacher(teachers, a);
      a := a + 1;
    }
    assert teachers[..a] == teachers;
  }

  /** The loop over one teacher's threads, continuing from the state reached after the
      threads `done`: each thread gets its entry, then its messages are emailed. */
  method AddTeacher(
    cfg: Config, processed: map<string, map<nat, int>>, ghost done: seq<Thread>,
    threads: seq<Thread>, items0: seq<Outgoing>, updated0: map<string, map<nat, int>>)
    returns (items: seq<Outgoing>, updated: map<string, map<nat, int>>)
    requires items0 == ThreadsItems(cfg, done)
    requires updated0 == EntriesFor(processed, done)
    ensures items == ThreadsItems(cfg, done + threads)
    ensures updated == EntriesFor(processed, done + threads)
  {
    items, updated := items0, updated0;
    ghost var seen := done;
    var b := 0;
    while b < |threads|
      invariant 0 <= b <= |threads|
      invariant seen == done + threads[..b]
      invariant items == ThreadsItems(cfg, seen)
      invariant updated == EntriesFor(processed, seen)
    {
      var t := threads[b];
      AppendThread(cfg, processed, seen, t);
      if t.id !in updated {
        updated := updated[t.id := map[]];
      }
      var emails := EmailsForMessages(cfg, t);
      items := items + emails;
      ExtendSeen(done, threads, b);
      seen := seen + [t];
      b := b + 1;
    }
    assert threads[..b] == threads;
  }

  /** The innermost loop: one item per message of `t`, by ascending index. */
  method EmailsForMessages(cfg: Config, t: Thread) returns (items: seq<Outgoing>)
    ensures items == MessageItems(cfg, t)
  {
    items := [];
    var i := 0;
    while i < |t.messages|
      invariant 0 <= i <= |t.messages|
      invariant |items| == i
      invariant forall j :: 0 <= j < i ==> items[j] == MessageItem(cfg, t, j)
    {
      items := items + [MessageItem(cfg, t, i)];
      i := i + 1;
    }
  }
}
