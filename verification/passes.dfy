/** One run of aktuelles.js: build the emails, send them, and write `processed.json` only
    if sending finished without a rejection. The live script mails the threads section; the
    letters section is present but commented out, and is modelled the same way. */
module Passes {
  import opened Common
  import opened Processed
  import opened Dispatch
  import opened Letters
  import opened Threads

  /** Some thread of `threads` with id `id` has a message at index `i`. */
  predicate HasMessage(threads: seq<Thread>, id: string, i: nat)
  {
    exists t :: t in threads && t.id == id && i < |t.messages|
  }

  /** Every commit of the thread items is a message commit for an existing message of one
      of `threads`. */
  lemma {:induction false} ThreadCommitsTargetThreads(cfg: Config, threads: seq<Thread>)
    ensures forall c :: c in Commits(ThreadsItems(cfg, threads)) ==>
      && c.MarkMessage?
      && c.threadId in (set t | t in threads :: t.id)
      && HasMessage(threads, c.threadId, c.index)
    decreases |threads|
  {
    if threads != [] {
      var n := |threads| - 1;
      ThreadCommitsTargetThreads(cfg, threads[..n]);
      var front := ThreadsItems(cfg, threads[..n]);
      var last := MessageItems(cfg, threads[n]);
      var items := ThreadsItems(cfg, threads);
      assert items == front + last;
      forall c | c in Commits(items)
        ensures c.MarkMessage? && c.threadId in (set t | t in threads :: t.id)
        ensures HasMessage(threads, c.threadId, c.index)
      {
        var k :| 0 <= k < |items| && Commits(items)[k] == c;
        if k < |front| {
          assert Commits(front)[k] == c;
          assert forall t :: t in threads[..n] ==> t in threads;
          var t :| t in threads[..n] && t.id == c.threadId && c.index < |t.messages|;
          assert t in threads;
        } else {
          assert c == MarkMessage(threads[n].id, k - |front|);
          assert threads[n] in threads;
        }
      }
    }
  }

  /** Every message of every thread has an item whose callback records it. */
  lemma ThreadItemsCoverMessages(cfg: Config, threads: seq<Thread>, t: Thread, i: nat)
    requires t in threads && i < |t.messages|
    ensures MarkMessage(t.id, i) in Commits(ThreadsItems(cfg, threads))
  {
    var b :| 0 <= b < |threads| && threads[b] == t;
    ThreadsItemsAt(cfg, threads, b, i);
    var k := TotalMessages(threads[..b]) + i;
    assert Commits(ThreadsItems(cfg, threads))[k] == MarkMessage(t.id, i);
  }

  /** The thread callbacks record index `i` for thread `id` exactly when some thread with
      that id has a message at `i`. */
  lemma ThreadIndicesExact(cfg: Config, threads: seq<Thread>, id: string, i: nat)
    ensures i in IndicesFor(Commits(ThreadsItems(cfg, threads)), id) <==> HasMessage(threads, id, i)
  {
    var cs := Commits(ThreadsItems(cfg, threads));
    if i in IndicesFor(cs, id) {
      ThreadCommitsTargetThreads(cfg, threads);
      var c :| c in cs && c.MarkMessage? && c.threadId == id && c.index == i;
    }
    if HasMessage(threads, id, i) {
      var t :| t in threads && t.id == id && i < |t.messages|;
      ThreadItemsCoverMessages(cfg, threads, t, i);
      assert MarkMessage(id, i) in cs;
    }
  }

  /** The state the thread callbacks run from: the loaded one with every thread's entry made. */
  function ThreadsStart(loaded: ProcessedItems, threads: seq<Thread>): ProcessedItems
  {
    loaded.(threads := EntriesFor(loaded.threads, threads))
  }

  /** Once every thread has its entry, every callback of the thread items can run. */
  lemma ThreadCommitsApplicable(cfg: Config, threads: seq<Thread>, loaded: ProcessedItems)
    ensures forall c :: c in Commits(ThreadsItems(cfg, threads)) ==>
      c.MarkMessage? && Applicable(ThreadsStart(loaded, threads), c)
  {
    EntriesForSpec(loaded.threads, threads);
    ThreadCommitsTargetThreads(cfg, threads);
  }

  /** Running the thread callbacks keeps the letters as loaded and drops nothing recorded
      before. */
  lemma ThreadCommitsGrow(cfg: Config, threads: seq<Thread>, loaded: ProcessedItems)
    ensures var cs := Commits(ThreadsItems(cfg, threads));
      && (forall c :: c in cs ==> Applicable(ThreadsStart(loaded, threads), c))
      && var r := ApplyAll(ThreadsStart(loaded, threads), cs);
      && r.letters == loaded.letters
      && Grows(loaded, r)
  {
    var start := ThreadsStart(loaded, threads);
    var cs := Commits(ThreadsItems(cfg, threads));
    ThreadCommitsApplicable(cfg, threads, loaded);
    MessageCommitsKeepLetters(start, cs);
    ApplyAllMarks(start, cs);
    EntriesForSpec(loaded.threads, threads);
    assert Grows(loaded, start);
  }

  /** Running the thread callbacks records message `i` of thread `t`. */
  lemma ThreadMessageRecorded(cfg: Config, threads: seq<Thread>, loaded: ProcessedItems, t: Thread, i: nat)
    requires t in threads && i < |t.messages|
    ensures var cs := Commits(ThreadsItems(cfg, threads));
      && (forall c :: c in cs ==> Applicable(ThreadsStart(loaded, threads), c))
      && Marked(ApplyAll(ThreadsStart(loaded, threads), cs), MarkMessage(t.id, i))
  {
    var cs := Commits(ThreadsItems(cfg, threads));
    ThreadCommitsApplicable(cfg, threads, loaded);
    ThreadItemsCoverMessages(cfg, threads, t, i);
    ApplyAllMarks(ThreadsStart(loaded, threads), cs);
  }

  /** Running the thread callbacks records every message of every thread. */
  lemma ThreadCommitsRecordAll(cfg: Config, threads: seq<Thread>, loaded: ProcessedItems)
    ensures var cs := Commits(ThreadsItems(cfg, threads));
      && (forall c :: c in cs ==> Applicable(ThreadsStart(loaded, threads), c))
      && var r := ApplyAll(ThreadsStart(loaded, threads), cs);
      && forall t, i :: t in threads && 0 <= i < |t.messages| ==> Marked(r, MarkMessage(t.id, i))
  {
    ThreadCommitsApplicable(cfg, threads, loaded);
    forall t, i | t in threads && 0 <= i < |t.messages|
      ensures Marked(ApplyAll(ThreadsStart(loaded, threads), Commits(ThreadsItems(cfg, threads))), MarkMessage(t.id, i))
    {
      ThreadMessageRecorded(cfg, threads, loaded, t, i);
    }
  }

  /** Running the thread callbacks adds nothing else: the thread entries are the loaded ones
      plus one per thread, and each entry holds its loaded indices plus the indices of the
      messages of the threads with that id. */
  lemma ThreadCommitsExact(cfg: Config, threads: seq<Thread>, loaded: ProcessedItems)
    ensures var cs := Commits(ThreadsItems(cfg, threads));
      && (forall c :: c in cs ==> Applicable(ThreadsStart(loaded, threads), c))
      && var r := ApplyAll(ThreadsStart(loaded, threads), cs);
      && r.threads.Keys == loaded.threads.Keys + (set t | t in threads :: t.id)
      && forall id, i :: id in r.threads ==>
           (i in r.threads[id] <==> (id in loaded.threads && i in loaded.threads[id]) || HasMessage(threads, id, i))
  {
    var start := ThreadsStart(loaded, threads);
    var cs := Commits(ThreadsItems(cfg, threads));
    ThreadCommitsApplicable(cfg, threads, loaded);
    EntriesForSpec(loaded.threads, threads);
    var r := ApplyAll(start, cs);
    forall id, i: nat | id in r.threads
      ensures i in r.threads[id] <==> (id in loaded.threads && i in loaded.threads[id]) || HasMessage(threads, id, i)
    {
      ThreadIndicesExact(cfg, threads, id, i);
    }
  }

  /** After the thread callbacks, index `i` of thread `id` holds 1 when a thread with that id
      has a message at `i`, and otherwise the value loaded for it. */
  lemma ThreadCommitValue(cfg: Config, threads: seq<Thread>, loaded: ProcessedItems, id: string, i: nat)
    ensures var cs := Commits(ThreadsItems(cfg, threads));
      && (forall c :: c in cs ==> Applicable(ThreadsStart(loaded, threads), c))
      && var r := ApplyAll(ThreadsStart(loaded, threads), cs);
      && (id in r.threads && i in r.threads[id] && HasMessage(threads, id, i) ==> r.threads[id][i] == 1)
      && (id in r.threads && i in r.threads[id] && !HasMessage(threads, id, i) ==>
            id in loaded.threads && i in loaded.threads[id] && r.threads[id][i] == loaded.threads[id][i])
  {
    var start := ThreadsStart(loaded, threads);
    var cs := Commits(ThreadsItems(cfg, threads));
    ThreadCommitsApplicable(cfg, threads, loaded);
    var r := ApplyAll(start, cs);
    if id in r.threads && i in r.threads[id] {
      ApplyAllThreadValues(start, cs);
      EntriesForSpec(loaded.threads, threads);
      if HasMessage(threads, id, i) {
        var t :| t in threads && t.id == id && i < |t.messages|;
        ThreadItemsCoverMessages(cfg, threads, t, i);
      } else {
        ThreadCommitsTargetThreads(cfg, threads);
        assert MarkMessage(id, i) !in cs;
      }
    }
  }

  /** The values of the whole thread progress after the thread callbacks. */
  lemma ThreadCommitValues(cfg: Config, threads: seq<Thread>, loaded: ProcessedItems)
    ensures var cs := Commits(ThreadsItems(cfg, threads));
      && (forall c :: c in cs ==> Applicable(ThreadsStart(loaded, threads), c))
      && var r := ApplyAll(ThreadsStart(loaded, threads), cs);
      forall id, i :: id in r.threads && i in r.threads[id] ==>
        && (HasMessage(threads, id, i) ==> r.threads[id][i] == 1)
        && (!HasMessage(threads, id, i) ==>
              id in loaded.threads && i in loaded.threads[id] && r.threads[id][i] == loaded.threads[id][i])
  {
    ThreadCommitsApplicable(cfg, threads, loaded);
    var r := ApplyAll(ThreadsStart(loaded, threads), Commits(ThreadsItems(cfg, threads)));
    forall id, i | id in r.threads && i in r.threads[id]
      ensures HasMessage(threads, id, i) ==> r.threads[id][i] == 1
      ensures !HasMessage(threads, id, i) ==>
        id in loaded.threads && i in loaded.threads[id] && r.threads[id][i] == loaded.threads[id][i]
    {
      ThreadCommitValue(cfg, threads, loaded, id, i);
    }
  }

  /** The live main block of aktuelles.js: read the teachers' threads, build the emails,
      send them, and write the processed items back. `outcomes` are the transport's answers.
      The file is written exactly when every send succeeded; it then keeps all letters as
      loaded, keeps everything recorded before, records every message of every thread, and
      records nothing else. */
  method RunThreadsPass(
    cfg: Config, teachers: seq<Teacher>, loaded: ProcessedItems, outcomes: seq<SendOutcome>)
    returns (written: Option<ProcessedItems>)
    requires |outcomes| >= TotalMessages(AllThreads(teachers))
    ensures var n := TotalMessages(AllThreads(teachers));
      written.Some? <==> FirstFailure(outcomes, 0, n) == n
    ensures written.Some? ==> written.value.letters == loaded.letters
    ensures written.Some? ==> Grows(loaded, written.value)
    ensures written.Some? ==> forall t, i :: t in AllThreads(teachers) && 0 <= i < |t.messages| ==>
      Marked(written.value, MarkMessage(t.id, i))
    ensures written.Some? ==>
      written.value.threads.Keys == loaded.threads.Keys + (set t | t in AllThreads(teachers) :: t.id)
    ensures written.Some? ==> forall id, i :: id in written.value.threads ==>
      (i in written.value.threads[id] <==>
         (id in loaded.threads && i in loaded.threads[id]) || HasMessage(AllThreads(teachers), id, i))
    ensures written.Some? ==> forall id, i :: id in written.value.threads && i in written.value.threads[id] ==>
      && (HasMessage(AllThreads(teachers), id, i) ==> written.value.threads[id][i] == 1)
      && (!HasMessage(AllThreads(teachers), id, i) ==>
            id in loaded.threads && i in loaded.threads[id] &&
            written.value.threads[id][i] == loaded.threads[id][i])
  {
    var items, updated := BuildEmailsForThreads(cfg, teachers, loaded.threads);
    ThreadCommitsGrow(cfg, AllThreads(teachers), loaded);
    ThreadCommitsRecordAll(cfg, AllThreads(teachers), loaded);
    ThreadCommitsExact(cfg, AllThreads(teachers), loaded);
    ThreadCommitValues(cfg, AllThreads(teachers), loaded);
    var start := loaded.(threads := updated);
    assert start == ThreadsStart(loaded, AllThreads(teachers));
    var report := SendEmails(items, outcomes, start);
    if report.rejected {
      written := None;
    } else {
      assert Commits(items)[..|items|] == Commits(items);
      written := Some(report.state);
    }
  }

  /** Sending letter emails never touches the thread progress. */
  lemma LetterSendsKeepThreads(items: seq<Outgoing>, outcomes: seq<SendOutcome>, loaded: ProcessedItems)
    requires |items| <= |outcomes|
    requires forall c :: c in Commits(items) ==> c.MarkLetter?
    ensures SendEmails(items, outcomes, loaded).state.threads == loaded.threads
  {
    var k := FirstFailure(outcomes, 0, |items|);
    var cs := Commits(items)[..k];
    assert forall c :: c in cs ==> c in Commits(items);
    LetterCommitsKeepThreads(loaded, cs);
  }

  /** The letters section (commented out in the main block): fetch attachments, build the
      letter emails, send them, and write the processed items back if nothing was rejected.
      `fetch` answers the attachment requests and `outcomes` the sends. The record is written
      exactly when every attachment request and every send of the unprocessed letters'
      emails succeeds, and thread progress is never touched. */
  function RunLettersPass(
    cfg: Config, letters: seq<Letter>, loaded: ProcessedItems,
    fetch: string -> Option<Download>, outcomes: seq<SendOutcome>)
    : (written: Option<ProcessedItems>)
    requires |outcomes| >= |letters|
    ensures var n := |Unprocessed(letters, loaded.letters)|;
      written.Some? <==> ReadAttachments(letters, loaded.letters, fetch).Some? && FirstFailure(outcomes, 0, n) == n
    ensures written.Some? ==> written.value.threads == loaded.threads
    ensures (exists j :: 0 <= j < |letters| && NeedsAttachment(letters[j], loaded.letters) &&
               fetch(letters[j].url.value).None?) ==> written.None?
  {
    match ReadAttachments(letters, loaded.letters, fetch)
    case None => None
    case Some(ls) =>
      var items := BuildEmailsForLetters(cfg, ls, loaded.letters);
      UnprocessedMembers(ls, loaded.letters);
      LetterCommitsOnlyLetters(cfg, ls, loaded.letters);
      LetterSendsKeepThreads(items, outcomes, loaded);
      UnprocessedAfterRead(letters, loaded.letters, fetch);
      var report := SendEmails(items, outcomes, loaded);
      if report.rejected then None else Some(report.state)
  }

  /** A letters run that writes its state read every attachment, sent every email it built,
      and ran all of their callbacks. */
  lemma LettersPassShape(
    cfg: Config, letters: seq<Letter>, loaded: ProcessedItems,
    fetch: string -> Option<Download>, outcomes: seq<SendOutcome>)
    requires |outcomes| >= |letters|
    ensures RunLettersPass(cfg, letters, loaded, fetch, outcomes).Some? ==>
      && ReadAttachments(letters, loaded.letters, fetch).Some?
      && var items := BuildEmailsForLetters(cfg, ReadAttachments(letters, loaded.letters, fetch).value, loaded.letters);
      && |items| <= |outcomes|
      && FirstFailure(outcomes, 0, |items|) == |items|
      && RunLettersPass(cfg, letters, loaded, fetch, outcomes).value == ApplyAll(loaded, Commits(items))
  {
    if RunLettersPass(cfg, letters, loaded, fetch, outcomes).Some? {
      var ls := ReadAttachments(letters, loaded.letters, fetch).value;
      var items := BuildEmailsForLetters(cfg, ls, loaded.letters);
      UnprocessedMembers(ls, loaded.letters);
      assert Commits(items)[..|items|] == Commits(items);
    }
  }

  /** `readAttachments` keeps every letter's id. */
  lemma ReadKeepsIds(letters: seq<Letter>, processed: map<string, int>, fetch: string -> Option<Download>)
    requires ReadAttachments(letters, processed, fetch).Some?
    ensures var ls := ReadAttachments(letters, processed, fetch).value;
      && (set l | l in ls && l.id !in processed :: l.id) == (set l | l in letters && l.id !in processed :: l.id)
  {
    var ls := ReadAttachments(letters, processed, fetch).value;
    forall l | l in letters && l.id !in processed
      ensures l.id in (set l | l in ls && l.id !in processed :: l.id)
    {
      var j :| 0 <= j < |letters| && letters[j] == l;
      assert ls[j].id == l.id;
      assert ls[j] in ls;
    }
    forall l | l in ls && l.id !in processed
      ensures l.id in (set l | l in letters && l.id !in processed :: l.id)
    {
      var j :| 0 <= j < |ls| && ls[j] == l;
      assert letters[j].id == l.id;
      assert letters[j] in letters;
    }
  }

  /** Adding the new ids of `letters` to `keys` adds all of their ids. */
  lemma FreshIdsUnion(letters: seq<Letter>, processed: map<string, int>)
    ensures processed.Keys + (set l | l in letters && l.id !in processed :: l.id)
         == processed.Keys + (set l | l in letters :: l.id)
  {
  }

  /** A letters run that writes its state recorded, with value 1, the id of every letter it
      saw, and nothing else. */
  lemma LettersPassRecordsAll(
    cfg: Config, letters: seq<Letter>, loaded: ProcessedItems,
    fetch: string -> Option<Download>, outcomes: seq<SendOutcome>)
    requires |outcomes| >= |letters|
    ensures var w := RunLettersPass(cfg, letters, loaded, fetch, outcomes);
      w.Some? ==>
      && w.value.letters.Keys == loaded.letters.Keys + (set l | l in letters :: l.id)
      && forall id :: id in w.value.letters && id !in loaded.letters ==> w.value.letters[id] == 1
  {
    LettersPassShape(cfg, letters, loaded, fetch, outcomes);
    if RunLettersPass(cfg, letters, loaded, fetch, outcomes).Some? {
      var ls := ReadAttachments(letters, loaded.letters, fetch).value;
      LetterCommitsAreUnprocessedIds(cfg, ls, loaded.letters);
      ReadKeepsIds(letters, loaded.letters, fetch);
      FreshIdsUnion(letters, loaded.letters);
    }
  }

  /** When every letter's id is recorded, nothing is fetched, `readAttachments` returns the
      letters as they are, and nothing is mailed. */
  lemma QuietWhenAllRecorded(cfg: Config, letters: seq<Letter>, processed: map<string, int>)
    requires forall l :: l in letters ==> l.id in processed
    ensures AttachmentTargets(letters, processed) == []
    ensures forall f :: ReadAttachments(letters, processed, f) == Some(letters)
    ensures BuildEmailsForLetters(cfg, letters, processed) == []
  {
    UnprocessedMembers(letters, processed);
    assert forall j :: 0 <= j < |letters| ==> letters[j] in letters;
    NoTargetsWhenNoneNeeded(letters, processed);
    forall f: string -> Option<Download>
      ensures ReadAttachments(letters, processed, f) == Some(letters)
    {
      ReadNothingNeeded(letters, processed, f);
    }
  }

  /** Idempotence of the letters section: after a run that wrote its state, the next run
      over the same letters fetches no attachment and sends no email. */
  lemma LettersRerunIsQuiet(
    cfg: Config, letters: seq<Letter>, loaded: ProcessedItems,
    fetch: string -> Option<Download>, outcomes: seq<SendOutcome>)
    requires |outcomes| >= |letters|
    ensures var w := RunLettersPass(cfg, letters, loaded, fetch, outcomes);
      w.Some? ==>
      && AttachmentTargets(letters, w.value.letters) == []
      && (forall f :: ReadAttachments(letters, w.value.letters, f) == Some(letters))
      && BuildEmailsForLetters(cfg, letters, w.value.letters) == []
  {
    LettersPassRecordsAll(cfg, letters, loaded, fetch, outcomes);
    var w := RunLettersPass(cfg, letters, loaded, fetch, outcomes);
    if w.Some? {
      QuietWhenAllRecorded(cfg, letters, w.value.letters);
    }
  }
}
