/** The persisted record of mailed items (`processed.json`) and the `ok` callbacks that update it. */
module Processed {
  import opened Common

  /** `letters` maps a letter id to 1; `threads` maps a thread id to the message indices
      already mailed, each mapped to 1. JavaScript stores the indices as the object keys
      "0", "1", ...; here they are natural numbers. */
  datatype ProcessedItems = ProcessedItems(
    letters: map<string, int>,
    threads: map<string, map<nat, int>>)

  /** The state update an `ok` callback performs once its email is confirmed:
      `processedLetters[id] = 1` or `processedThreads[threadId][index] = 1`. */
  datatype Commit = MarkLetter(letterId: string) | MarkMessage(threadId: string, index: nat)

  /** One entry of the list handed to `sendEmails`: the email and its `ok` callback. */
  datatype Outgoing = Outgoing(email: Email, commit: Commit)

  /** The callbacks of `items`, in order. */
  function Commits(items: seq<Outgoing>): seq<Commit>
  {
    seq(|items|, j requires 0 <= j < |items| => items[j].commit)
  }

  /** A message commit indexes into the thread's entry, which must exist: on a missing
      entry `processedThreads[threadId][index]` throws a TypeError. */
  predicate Applicable(s: ProcessedItems, c: Commit)
  {
    c.MarkMessage? ==> c.threadId in s.threads
  }

  /** The item `c` refers to is recorded in `s` (the scripts test membership with `in`). */
  predicate Marked(s: ProcessedItems, c: Commit)
  {
    match c
    case MarkLetter(id) => id in s.letters
    case MarkMessage(t, i) => t in s.threads && i in s.threads[t]
  }

  /** `s'` keeps every key of `s`: letter ids, thread entries and message indices. */
  predicate Grows(s: ProcessedItems, s': ProcessedItems)
  {
    && s.letters.Keys <= s'.letters.Keys
    && s.threads.Keys <= s'.threads.Keys
    && forall t :: t in s.threads ==> s.threads[t].Keys <= s'.threads[t].Keys
  }

  /** Runs one `ok` callback: it records exactly its own item, with value 1, and leaves every
      other letter, thread entry and message index as it was. */
  function Apply(s: ProcessedItems, c: Commit): (r: ProcessedItems)
    requires Applicable(s, c)
    ensures Marked(r, c)
    ensures Grows(s, r)
    ensures c.MarkLetter? ==>
      && r.threads == s.threads
      && r.letters.Keys == s.letters.Keys + {c.letterId}
      && r.letters[c.letterId] == 1
      && forall id :: id in s.letters && id != c.letterId ==> r.letters[id] == s.letters[id]
    ensures c.MarkMessage? ==>
      && r.letters == s.letters
      && r.threads.Keys == s.threads.Keys
      && r.threads[c.threadId].Keys == s.threads[c.threadId].Keys + {c.index}
      && r.threads[c.threadId][c.index] == 1
      && (forall i :: i in s.threads[c.threadId] && i != c.index ==>
            r.threads[c.threadId][i] == s.threads[c.threadId][i])
      && forall t :: t in s.threads && t != c.threadId ==> r.threads[t] == s.threads[t]
  {
    match c
    case MarkLetter(id) => s.(letters := s.letters[id := 1])
    case MarkMessage(t, i) =>
      var progress: map<nat, int> := s.threads[t][i := 1];
      s.(threads := s.threads[t := progress])
  }

  /** The letter ids the commits in `cs` record. */
  function LetterIds(cs: seq<Commit>): set<string>
  {
    set c | c in cs && c.MarkLetter? :: c.letterId
  }

  /** The message indices of thread `t` the commits in `cs` record. */
  function IndicesFor(cs: seq<Commit>, t: string): set<nat>
  {
    set c | c in cs && c.MarkMessage? && c.threadId == t :: c.index
  }

  /** Runs the callbacks `cs` one after the other. The result holds exactly the keys of `s`
      plus the items of `cs`; no thread entry is created or removed. */
  function ApplyAll(s: ProcessedItems, cs: seq<Commit>): (r: ProcessedItems)
    requires forall c :: c in cs ==> Applicable(s, c)
    ensures r.letters.Keys == s.letters.Keys + LetterIds(cs)
    ensures r.threads.Keys == s.threads.Keys
    ensures forall t :: t in s.threads ==> r.threads[t].Keys == s.threads[t].Keys + IndicesFor(cs, t)
    ensures forall id :: id in r.letters ==>
      r.letters[id] == if id in LetterIds(cs) then 1 else s.letters[id]
    decreases |cs|
  {
    if cs == [] then s
    else
      var s1 := Apply(s, cs[0]);
      ApplicableAfterGrowth(s, s1, cs[1..]);
      var r := ApplyAll(s1, cs[1..]);
      ApplyAllStep(s, cs, s1, r);
      r
  }

  /** The effect of the first callback followed by the effect of the rest is the effect of
      all of them. */
  lemma ApplyAllStep(s: ProcessedItems, cs: seq<Commit>, s1: ProcessedItems, r: ProcessedItems)
    requires cs != [] && Applicable(s, cs[0]) && s1 == Apply(s, cs[0])
    requires r.letters.Keys == s1.letters.Keys + LetterIds(cs[1..])
    requires r.threads.Keys == s1.threads.Keys
    requires forall t :: t in s1.threads ==> r.threads[t].Keys == s1.threads[t].Keys + IndicesFor(cs[1..], t)
    requires forall id :: id in r.letters ==>
      r.letters[id] == if id in LetterIds(cs[1..]) then 1 else s1.letters[id]
    ensures r.letters.Keys == s.letters.Keys + LetterIds(cs)
    ensures r.threads.Keys == s.threads.Keys
    ensures forall t :: t in s.threads ==> r.threads[t].Keys == s.threads[t].Keys + IndicesFor(cs, t)
    ensures forall id :: id in r.letters ==>
      r.letters[id] == if id in LetterIds(cs) then 1 else s.letters[id]
  {
    LetterIdsStep(cs);
    ThreadIndicesStep(s, cs, s1, r);
  }

  /** The index sets of the thread entries after the first callback and the rest. */
  lemma ThreadIndicesStep(s: ProcessedItems, cs: seq<Commit>, s1: ProcessedItems, r: ProcessedItems)
    requires cs != [] && Applicable(s, cs[0]) && s1 == Apply(s, cs[0])
    requires r.threads.Keys == s1.threads.Keys
    requires forall t :: t in s1.threads ==> r.threads[t].Keys == s1.threads[t].Keys + IndicesFor(cs[1..], t)
    ensures forall t :: t in s.threads ==> r.threads[t].Keys == s.threads[t].Keys + IndicesFor(cs, t)
  {
    forall t | t in s.threads
      ensures r.threads[t].Keys == s.threads[t].Keys + IndicesFor(cs, t)
    {
      IndicesStep(cs, t);
    }
  }

  /** The letter ids recorded by `cs` are its first callback's and those of the rest. */
  lemma LetterIdsStep(cs: seq<Commit>)
    requires cs != []
    ensures LetterIds(cs) == (if cs[0].MarkLetter? then {cs[0].letterId} else {}) + LetterIds(cs[1..])
  {
    assert forall x :: x in cs <==> x == cs[0] || x in cs[1..] by {
      assert cs == [cs[0]] + cs[1..];
    }
  }

  /** The indices of `t` recorded by `cs` are its first callback's and those of the rest. */
  lemma IndicesStep(cs: seq<Commit>, t: string)
    requires cs != []
    ensures IndicesFor(cs, t) ==
      (if cs[0].MarkMessage? && cs[0].threadId == t then {cs[0].index} else {}) + IndicesFor(cs[1..], t)
  {
    assert forall x :: x in cs <==> x == cs[0] || x in cs[1..] by {
      assert cs == [cs[0]] + cs[1..];
    }
  }

  /** After running callbacks, every one of their items is recorded and nothing recorded
      before has been dropped: the state only grows. */
  lemma ApplyAllMarks(s: ProcessedItems, cs: seq<Commit>)
    requires forall c :: c in cs ==> Applicable(s, c)
    ensures Grows(s, ApplyAll(s, cs))
    ensures forall c :: c in cs ==> Marked(ApplyAll(s, cs), c)
  {
    var r := ApplyAll(s, cs);
    forall c | c in cs
      ensures Marked(r, c)
    {
      assert Applicable(s, c);
      match c
      case MarkLetter(id) => assert id in LetterIds(cs);
      case MarkMessage(t, i) => assert i in IndicesFor(cs, t);
    }
  }

  lemma ApplicableAfterGrowth(s: ProcessedItems, s': ProcessedItems, cs: seq<Commit>)
    requires Grows(s, s')
    requires forall c :: c in cs ==> Applicable(s, c)
    ensures forall c :: c in cs ==> Applicable(s', c)
  {
    forall c | c in cs
      ensures Applicable(s', c)
    {
      assert Applicable(s, c);
      assert s.threads.Keys <= s'.threads.Keys;
    }
  }

  lemma SplitFirstCommit(cs: seq<Commit>)
    requires |cs| > 0
    ensures forall c :: c in cs[1..] ==> c in cs
    ensures LetterIds(cs) == LetterIds([cs[0]]) + LetterIds(cs[1..])
    ensures forall t :: IndicesFor(cs, t) == IndicesFor([cs[0]], t) + IndicesFor(cs[1..], t)
  {
    assert cs == [cs[0]] + cs[1..];
    assert forall c :: c in cs <==> c == cs[0] || c in cs[1..];
  }

  /** Callbacks that only record messages leave the letters as they were. */
  lemma {:induction false} MessageCommitsKeepLetters(s: ProcessedItems, cs: seq<Commit>)
    requires forall c :: c in cs ==> c.MarkMessage? && Applicable(s, c)
    ensures ApplyAll(s, cs).letters == s.letters
    decreases |cs|
  {
    if cs != [] {
      var s1 := Apply(s, cs[0]);
      ApplicableAfterGrowth(s, s1, cs[1..]);
      SplitFirstCommit(cs);
      MessageCommitsKeepLetters(s1, cs[1..]);
    }
  }

  /** After running callbacks, every message index they record holds 1, and every other
      index was there before and keeps the value it had. */
  lemma ApplyAllThreadValues(s: ProcessedItems, cs: seq<Commit>)
    requires forall c :: c in cs ==> Applicable(s, c)
    ensures var r := ApplyAll(s, cs);
      forall t, i :: t in r.threads && i in r.threads[t] ==>
        && (MarkMessage(t, i) in cs ==> r.threads[t][i] == 1)
        && (MarkMessage(t, i) !in cs ==> i in s.threads[t] && r.threads[t][i] == s.threads[t][i])
  {
    var r := ApplyAll(s, cs);
    forall t, i | t in r.threads && i in r.threads[t]
      ensures MarkMessage(t, i) in cs ==> r.threads[t][i] == 1
      ensures MarkMessage(t, i) !in cs ==> i in s.threads[t] && r.threads[t][i] == s.threads[t][i]
    {
      if MarkMessage(t, i) in cs {
        RecordedIndexHoldsOne(s, cs, t, i);
      } else {
        assert i in s.threads[t] by {
          assert i !in IndicesFor(cs, t);
        }
        OtherIndexKeepsValue(s, cs, t, i);
      }
    }
  }

  /** An index some callback records holds 1 afterwards. */
  lemma {:induction false} RecordedIndexHoldsOne(s: ProcessedItems, cs: seq<Commit>, t: string, i: nat)
    requires forall c :: c in cs ==> Applicable(s, c)
    requires MarkMessage(t, i) in cs
    ensures t in ApplyAll(s, cs).threads && i in ApplyAll(s, cs).threads[t]
    ensures ApplyAll(s, cs).threads[t][i] == 1
    decreases |cs|
  {
    var c0 := cs[0];
    var rest := cs[1..];
    var s1 := Apply(s, c0);
    assert forall c :: c in rest ==> Applicable(s1, c) by {
      assert forall c :: c in rest ==> c in cs;
      ApplicableAfterGrowth(s, s1, rest);
    }
    if MarkMessage(t, i) in rest {
      RecordedIndexHoldsOne(s1, rest, t, i);
    } else {
      assert c0 == MarkMessage(t, i) by {
        assert cs == [c0] + rest;
      }
      OtherIndexKeepsValue(s1, rest, t, i);
    }
  }

  /** An index no callback records keeps its value. */
  lemma {:induction false} OtherIndexKeepsValue(s: ProcessedItems, cs: seq<Commit>, t: string, i: nat)
    requires forall c :: c in cs ==> Applicable(s, c)
    requires t in s.threads && i in s.threads[t]
    requires MarkMessage(t, i) !in cs
    ensures ApplyAll(s, cs).threads[t][i] == s.threads[t][i]
    decreases |cs|
  {
    if cs != [] {
      var c0 := cs[0];
      var rest := cs[1..];
      var s1 := Apply(s, c0);
      assert forall c :: c in rest ==> Applicable(s1, c) by {
        assert forall c :: c in rest ==> c in cs;
        ApplicableAfterGrowth(s, s1, rest);
      }
      assert c0 != MarkMessage(t, i) && MarkMessage(t, i) !in rest by {
        assert cs == [c0] + rest;
      }
      ApplyKeepsOtherIndex(s, c0, t, i);
      OtherIndexKeepsValue(s1, rest, t, i);
      assert ApplyAll(s, cs) == ApplyAll(s1, rest);
    }
  }

  /** One callback leaves every index but its own as it was. */
  lemma ApplyKeepsOtherIndex(s: ProcessedItems, c: Commit, t: string, i: nat)
    requires Applicable(s, c) && t in s.threads && i in s.threads[t]
    requires c != MarkMessage(t, i)
    ensures t in Apply(s, c).threads && i in Apply(s, c).threads[t]
    ensures Apply(s, c).threads[t][i] == s.threads[t][i]
  {
  }

  /** Callbacks that only record letters leave the thread progress as it was. */
  lemma {:induction false} LetterCommitsKeepThreads(s: ProcessedItems, cs: seq<Commit>)
    requires forall c :: c in cs ==> c.MarkLetter?
    ensures ApplyAll(s, cs).threads == s.threads
    decreases |cs|
  {
    if cs != [] {
      assert cs[0] in cs;
      var s1 := Apply(s, cs[0]);
      SplitFirstCommit(cs);
      LetterCommitsKeepThreads(s1, cs[1..]);
    }
  }
}
