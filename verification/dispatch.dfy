/** `sendEmails` of aktuelles.js: sequential, throttled sending that runs each email's `ok`
    callback after a confirmed send and stops at the first failure. The mail transport and
    the timer are replaced by a sequence of send outcomes and a count of waits. */
module Dispatch {
  import opened Common
  import opened Processed

  /** What the transport reports to the `sendMail` callback. */
  datatype SendOutcome = Sent | Failed(reason: string)

  /** One observable step of `sendEmails`: a throttling pause, a `sendMail` call for the
      email at `index`, or the `ok` callback of that email. */
  datatype Step = Wait | Send(index: nat) | Confirm(index: nat)

  /** What a call of `sendEmails` leaves behind: the processed state after the callbacks that
      ran, how many sends and waits happened, and whether the returned promise was rejected. */
  datatype SendReport = SendReport(
    state: ProcessedItems,
    attempted: nat,
    waits: nat,
    rejected: bool)

  /** The index of the first failed outcome in `outcomes[from..n]`, or `n` if there is none. */
  function FirstFailure(outcomes: seq<SendOutcome>, from: nat, n: nat): (k: nat)
    requires from <= n <= |outcomes|
    ensures from <= k <= n
    ensures forall j :: from <= j < k ==> outcomes[j].Sent?
    ensures k < n ==> outcomes[k].Failed?
    decreases n - from
  {
    if from == n then n
    else if outcomes[from].Failed? then from
    else FirstFailure(outcomes, from + 1, n)
  }

  /** The loop of `sendEmails` from the email at index `i` on; `i == 0` is the first send,
      which is not preceded by a wait. `outcomes[j]` is what the transport reports for
      email `j`. */
  function SendFrom(items: seq<Outgoing>, outcomes: seq<SendOutcome>, s: ProcessedItems, i: nat)
    : (r: SendReport)
    requires i <= |items| <= |outcomes|
    requires forall c :: c in Commits(items)[i..] ==> Applicable(s, c)
    ensures var k := FirstFailure(outcomes, i, |items|);
      && (r.rejected <==> k < |items|)
      && r.attempted == (if k < |items| then k + 1 else |items|) - i
      && r.waits == (if i == 0 && r.attempted > 0 then r.attempted - 1 else r.attempted)
      && r.state == ApplyAll(s, Commits(items)[i..k])
    decreases |items| - i
  {
    if i == |items| then SendReport(s, 0, 0, false)
    else
      var pause := if i == 0 then 0 else 1;
      match outcomes[i]
      case Failed(_) => SendReport(s, 1, pause, true)
      case Sent =>
        var cs := Commits(items);
        var s1 := Apply(s, cs[i]);
        ApplicableAfterHead(s, cs, i);
        var rest := SendFrom(items, outcomes, s1, i + 1);
        ghost var k := FirstFailure(outcomes, i + 1, |items|);
        assert FirstFailure(outcomes, i, |items|) == k;
        ApplyAllFromHead(s, cs, i, k);
        SendReport(rest.state, rest.attempted + 1, rest.waits + pause, rest.rejected)
  }

  /** Committing `cs[i]` keeps every later commit of `cs` applicable. */
  lemma ApplicableAfterHead(s: ProcessedItems, cs: seq<Commit>, i: nat)
    requires i < |cs|
    requires forall c :: c in cs[i..] ==> Applicable(s, c)
    ensures forall c :: c in cs[i + 1..] ==> Applicable(Apply(s, cs[i]), c)
  {
    assert forall c :: c in cs[i + 1..] ==> c in cs[i..];
    ApplicableAfterGrowth(s, Apply(s, cs[i]), cs[i + 1..]);
  }

  /** Committing the slice `cs[i..k]` is committing `cs[i]` and then `cs[i + 1..k]`. */
  lemma ApplyAllFromHead(s: ProcessedItems, cs: seq<Commit>, i: nat, k: nat)
    requires i < k <= |cs|
    requires forall c :: c in cs[i..] ==> Applicable(s, c)
    ensures forall c :: c in cs[i..k] ==> Applicable(s, c)
    ensures forall c :: c in cs[i + 1..k] ==> Applicable(Apply(s, cs[i]), c)
    ensures ApplyAll(s, cs[i..k]) == ApplyAll(Apply(s, cs[i]), cs[i + 1..k])
  {
    assert forall c :: c in cs[i..k] ==> c in cs[i..];
    var u := cs[i..k];
    assert u[0] == cs[i] && u[1..] == cs[i + 1..k];
    ApplicableAfterGrowth(s, Apply(s, u[0]), u[1..]);
  }

  /** `sendEmails(emails)`. */
  function SendEmails(items: seq<Outgoing>, outcomes: seq<SendOutcome>, s: ProcessedItems)
    : (r: SendReport)
    requires |items| <= |outcomes|
    requires forall c :: c in Commits(items) ==> Applicable(s, c)
    ensures var k := FirstFailure(outcomes, 0, |items|);
      && (r.rejected <==> k < |items|)
      && r.attempted == (if k < |items| then k + 1 else |items|)
      && r.waits == (if r.attempted == 0 then 0 else r.attempted - 1)
      && r.state == ApplyAll(s, Commits(items)[..k])
    ensures |items| == 0 ==> r.attempted == 0 && r.state == s
  {
    assert Commits(items)[0..] == Commits(items);
    SendFrom(items, outcomes, s, 0)
  }

  /** Every wait is immediately followed by a send. */
  ghost predicate WaitsPrecedeSends(t: seq<Step>)
  {
    forall p :: 0 <= p < |t| && t[p] == Wait ==> p + 1 < |t| && t[p + 1].Send?
  }

  /** Every callback runs right after the send of its own email, and only when the transport
      reported that send as successful. */
  ghost predicate ConfirmsFollowSuccess(t: seq<Step>, outcomes: seq<SendOutcome>)
  {
    forall p :: 0 <= p < |t| && t[p].Confirm? ==>
      && p > 0
      && t[p - 1] == Send(t[p].index)
      && t[p].index < |outcomes|
      && outcomes[t[p].index] == Sent
  }

  /** The sends go out in strictly ascending index order, all within `[lo, hi)`. */
  ghost predicate SendsAscendingWithin(t: seq<Step>, lo: nat, hi: nat)
  {
    && (forall p :: 0 <= p < |t| && t[p].Send? ==> lo <= t[p].index < hi)
    && (forall p, q :: 0 <= p < q < |t| && t[p].Send? && t[q].Send? ==> t[p].index < t[q].index)
  }

  /** The steps of `sendEmails` from email `i` on, for `n` emails: before every send but the
      first a wait, then the send, then the `ok` callback if the send succeeded; a failed
      send rejects the promise and ends the loop. */
  function Schedule(outcomes: seq<SendOutcome>, i: nat, n: nat): (r: seq<Step>)
    requires i <= n <= |outcomes|
    ensures r == [] <==> i == n
    decreases n - i
  {
    if i == n then []
    else
      var pause := if i == 0 then [] else [Wait];
      if outcomes[i].Failed? then pause + [Send(i)]
      else pause + [Send(i), Confirm(i)] + Schedule(outcomes, i + 1, n)
  }

  /** Every wait of `sendEmails` comes right before a send, and the very first step is the
      send of email 0, not a wait. */
  lemma {:induction false} WaitsComeBeforeSends(outcomes: seq<SendOutcome>, i: nat, n: nat)
    requires i <= n <= |outcomes|
    ensures WaitsPrecedeSends(Schedule(outcomes, i, n))
    ensures var t := Schedule(outcomes, i, n);
      |t| > 0 ==> t[0] == if i == 0 then Send(0) else Wait
    decreases n - i
  {
    if i < n && outcomes[i].Sent? {
      WaitsComeBeforeSends(outcomes, i + 1, n);
      var t := Schedule(outcomes, i, n);
      var rest := Schedule(outcomes, i + 1, n);
      var head: seq<Step> := (if i == 0 then [] else [Wait]) + [Send(i), Confirm(i)];
      assert t == head + rest;
      assert forall p :: |head| <= p < |t| ==> t[p] == rest[p - |head|];
    }
  }

  /** An `ok` callback runs only right after the send of its own email, and only when the
      transport reported that send as successful. */
  lemma {:induction false} ConfirmsOnlySuccesses(outcomes: seq<SendOutcome>, i: nat, n: nat)
    requires i <= n <= |outcomes|
    ensures ConfirmsFollowSuccess(Schedule(outcomes, i, n), outcomes)
    decreases n - i
  {
    if i < n && outcomes[i].Sent? {
      ConfirmsOnlySuccesses(outcomes, i + 1, n);
      WaitsComeBeforeSends(outcomes, i + 1, n);
      var rest := Schedule(outcomes, i + 1, n);
      var head: seq<Step> := (if i == 0 then [] else [Wait]) + [Send(i), Confirm(i)];
      assert Schedule(outcomes, i, n) == head + rest;
      assert ConfirmsFollowSuccess(head, outcomes);
      ConfirmsFollowSuccessAppend(head, rest, outcomes);
    }
  }

  /** Appending steps that do not begin with a callback keeps every callback right after
      its own successful send. */
  lemma ConfirmsFollowSuccessAppend(head: seq<Step>, rest: seq<Step>, outcomes: seq<SendOutcome>)
    requires ConfirmsFollowSuccess(head, outcomes)
    requires ConfirmsFollowSuccess(rest, outcomes)
    requires |rest| > 0 ==> !rest[0].Confirm?
    ensures ConfirmsFollowSuccess(head + rest, outcomes)
  {
    var t := head + rest;
    forall p | 0 <= p < |t| && t[p].Confirm?
      ensures p > 0 && t[p - 1] == Send(t[p].index)
      ensures t[p].index < |outcomes| && outcomes[t[p].index] == Sent
    {
      if p >= |head| {
        assert t[p] == rest[p - |head|];
        assert p - |head| > 0;
        assert t[p - 1] == rest[p - 1 - |head|];
      }
    }
  }

  /** The sends go out one at a time in list order, from email `i` up to and including the
      first failure and never beyond it. */
  lemma {:induction false} SendsInOrder(outcomes: seq<SendOutcome>, i: nat, n: nat)
    requires i <= n <= |outcomes|
    ensures var k := FirstFailure(outcomes, i, n);
      SendsAscendingWithin(Schedule(outcomes, i, n), i, if k < n then k + 1 else n)
    decreases n - i
  {
    if i < n && outcomes[i].Sent? {
      SendsInOrder(outcomes, i + 1, n);
      var t := Schedule(outcomes, i, n);
      var rest := Schedule(outcomes, i + 1, n);
      var head: seq<Step> := (if i == 0 then [] else [Wait]) + [Send(i), Confirm(i)];
      assert t == head + rest;
      assert forall p :: |head| <= p < |t| ==> t[p] == rest[p - |head|];
      assert forall p :: 0 <= p < |head| && t[p].Send? ==> t[p].index == i;
    }
  }

  /** The email indices of the `Send` steps of `t`, in order. */
  function SendIndices(t: seq<Step>): seq<nat>
  {
    if t == [] then [] else (if t[0].Send? then [t[0].index] else []) + SendIndices(t[1..])
  }

  /** The email indices of the `Confirm` steps of `t`, in order. */
  function ConfirmIndices(t: seq<Step>): seq<nat>
  {
    if t == [] then [] else (if t[0].Confirm? then [t[0].index] else []) + ConfirmIndices(t[1..])
  }

  /** The number of `Wait` steps of `t`. */
  function WaitCount(t: seq<Step>): nat
  {
    if t == [] then 0 else (if t[0] == Wait then 1 else 0) + WaitCount(t[1..])
  }

  /** The indices `lo, lo + 1, ..., hi - 1`. */
  function Interval(lo: nat, hi: nat): (r: seq<nat>)
    requires lo <= hi
    ensures |r| == hi - lo
    decreases hi - lo
  {
    if lo == hi then [] else [lo] + Interval(lo + 1, hi)
  }

  /** Entry `j` of an interval is `lo + j`. */
  lemma {:induction false} IntervalAt(lo: nat, hi: nat, j: nat)
    requires lo <= hi && j < hi - lo
    ensures Interval(lo, hi)[j] == lo + j
    decreases j
  {
    if j > 0 {
      IntervalAt(lo + 1, hi, j - 1);
    }
  }

  /** The counts of a trace split over its two halves. */
  lemma StepCountsAppend(a: seq<Step>, b: seq<Step>)
    ensures SendIndices(a + b) == SendIndices(a) + SendIndices(b)
    ensures ConfirmIndices(a + b) == ConfirmIndices(a) + ConfirmIndices(b)
    ensures WaitCount(a + b) == WaitCount(a) + WaitCount(b)
  {
    SendIndicesAppend(a, b);
    ConfirmIndicesAppend(a, b);
    WaitCountAppend(a, b);
  }

  /** A non-empty interval starts with its lower end. */
  lemma IntervalFront(lo: nat, hi: nat)
    requires lo < hi
    ensures Interval(lo, hi) == [lo] + Interval(lo + 1, hi)
  {
  }

  lemma {:induction false} SendIndicesAppend(a: seq<Step>, b: seq<Step>)
    ensures SendIndices(a + b) == SendIndices(a) + SendIndices(b)
    decreases |a|
  {
    if a == [] {
      assert a + b == b;
    } else {
      assert (a + b)[0] == a[0];
      assert (a + b)[1..] == a[1..] + b;
      SendIndicesAppend(a[1..], b);
    }
  }

  lemma {:induction false} ConfirmIndicesAppend(a: seq<Step>, b: seq<Step>)
    ensures ConfirmIndices(a + b) == ConfirmIndices(a) + ConfirmIndices(b)
    decreases |a|
  {
    if a == [] {
      assert a + b == b;
    } else {
      assert (a + b)[0] == a[0];
      assert (a + b)[1..] == a[1..] + b;
      ConfirmIndicesAppend(a[1..], b);
    }
  }

  lemma {:induction false} WaitCountAppend(a: seq<Step>, b: seq<Step>)
    ensures WaitCount(a + b) == WaitCount(a) + WaitCount(b)
    decreases |a|
  {
    if a == [] {
      assert a + b == b;
    } else {
      assert (a + b)[0] == a[0];
      assert (a + b)[1..] == a[1..] + b;
      WaitCountAppend(a[1..], b);
    }
  }

  lemma StepCountsOfPause(pause: seq<Step>, i: nat)
    requires pause == if i == 0 then [] else [Wait]
    ensures SendIndices(pause) == [] && ConfirmIndices(pause) == []
    ensures WaitCount(pause) == if i == 0 then 0 else 1
  {
    if i != 0 {
      assert pause[1..] == [];
    }
  }

  /** The steps of a failed send of email `i`: the send, after a wait unless `i == 0`. */
  lemma ScheduleStepFailed(outcomes: seq<SendOutcome>, i: nat, n: nat)
    requires i < n <= |outcomes| && outcomes[i].Failed?
    ensures var t := Schedule(outcomes, i, n);
      && SendIndices(t) == [i]
      && ConfirmIndices(t) == []
      && WaitCount(t) == if i == 0 then 0 else 1
  {
    var pause: seq<Step> := if i == 0 then [] else [Wait];
    StepCountsOfPause(pause, i);
    StepCountsAppend(pause, [Send(i)]);
    assert Schedule(outcomes, i, n) == pause + [Send(i)];
    assert [Send(i)][1..] == [];
  }

  /** The steps of a successful send of email `i`: the send, after a wait unless `i == 0`,
      its callback, and then the steps from email `i + 1` on. */
  lemma ScheduleStepSent(outcomes: seq<SendOutcome>, i: nat, n: nat)
    requires i < n <= |outcomes| && outcomes[i].Sent?
    ensures var t := Schedule(outcomes, i, n);
      var rest := Schedule(outcomes, i + 1, n);
      && SendIndices(t) == [i] + SendIndices(rest)
      && ConfirmIndices(t) == [i] + ConfirmIndices(rest)
      && WaitCount(t) == (if i == 0 then 0 else 1) + WaitCount(rest)
  {
    var pause: seq<Step> := if i == 0 then [] else [Wait];
    var rest := Schedule(outcomes, i + 1, n);
    var step := [Send(i), Confirm(i)];
    StepCountsOfPause(pause, i);
    assert Schedule(outcomes, i, n) == pause + step + rest;
    assert step[1..] == [Confirm(i)] && [Confirm(i)][1..] == [];
    StepCountsAppend(pause, step);
    StepCountsAppend(pause + step, rest);
  }

  /** For first failure `k` (or `k == n` when there is none), `sendEmails` sends exactly
      emails `i..k`, or `i..n-1` without a failure, one after the other. */
  lemma {:induction false} ScheduleSends(outcomes: seq<SendOutcome>, i: nat, n: nat)
    requires i <= n <= |outcomes|
    ensures var k := FirstFailure(outcomes, i, n);
      SendIndices(Schedule(outcomes, i, n)) == Interval(i, if k < n then k + 1 else n)
    decreases n - i
  {
    if i == n {
      assert Interval(n, n) == [];
    } else if outcomes[i].Failed? {
      ScheduleStepFailed(outcomes, i, n);
      assert Interval(i, i + 1) == [i];
    } else {
      ScheduleStepSent(outcomes, i, n);
      ScheduleSends(outcomes, i + 1, n);
      var k := FirstFailure(outcomes, i + 1, n);
      assert FirstFailure(outcomes, i, n) == k;
      if k < n {
        IntervalFront(i, k + 1);
      } else {
        IntervalFront(i, n);
      }
    }
  }

  /** `sendEmails` runs the `ok` callbacks of exactly emails `i..k-1`, in that order, where
      `k` is the first failure (or `n`). */
  lemma {:induction false} ScheduleConfirms(outcomes: seq<SendOutcome>, i: nat, n: nat)
    requires i <= n <= |outcomes|
    ensures ConfirmIndices(Schedule(outcomes, i, n)) == Interval(i, FirstFailure(outcomes, i, n))
    decreases n - i
  {
    if i == n {
      assert Schedule(outcomes, i, n) == [];
      assert FirstFailure(outcomes, i, n) == i;
      assert Interval(i, i) == [];
    } else if outcomes[i].Failed? {
      ScheduleStepFailed(outcomes, i, n);
      assert FirstFailure(outcomes, i, n) == i;
      assert Interval(i, i) == [];
    } else {
      var t := Schedule(outcomes, i, n);
      var rest := Schedule(outcomes, i + 1, n);
      var k := FirstFailure(outcomes, i + 1, n);
      ScheduleStepSent(outcomes, i, n);
      ScheduleConfirms(outcomes, i + 1, n);
      assert ConfirmIndices(t) == [i] + Interval(i + 1, k);
      assert FirstFailure(outcomes, i, n) == k;
      IntervalFront(i, k);
    }
  }

  /** `sendEmails` waits once before every send except the send of email 0. */
  lemma {:induction false} ScheduleWaits(outcomes: seq<SendOutcome>, i: nat, n: nat)
    requires i <= n <= |outcomes|
    ensures var k := FirstFailure(outcomes, i, n);
      var sends := (if k < n then k + 1 else n) - i;
      WaitCount(Schedule(outcomes, i, n)) == if i == 0 && sends > 0 then sends - 1 else sends
    decreases n - i
  {
    if i < n {
      if outcomes[i].Failed? {
        ScheduleStepFailed(outcomes, i, n);
      } else {
        ScheduleStepSent(outcomes, i, n);
        ScheduleWaits(outcomes, i + 1, n);
      }
    }
  }

  /** The report of `sendEmails` agrees with its steps: one attempt per send, one wait per
      wait step, and the callbacks of the confirmed emails, which form a prefix of the list,
      are the ones whose effect is in the state. */
  lemma ReportMatchesSchedule(items: seq<Outgoing>, outcomes: seq<SendOutcome>, s: ProcessedItems)
    requires |items| <= |outcomes|
    requires forall c :: c in Commits(items) ==> Applicable(s, c)
    ensures var r := SendEmails(items, outcomes, s);
      var t := Schedule(outcomes, 0, |items|);
      && r.attempted == |SendIndices(t)|
      && r.waits == WaitCount(t)
      && ConfirmIndices(t) == Interval(0, |ConfirmIndices(t)|)
      && |ConfirmIndices(t)| <= |items|
      && r.state == ApplyAll(s, Commits(items)[..|ConfirmIndices(t)|])
  {
    ScheduleSends(outcomes, 0, |items|);
    ScheduleConfirms(outcomes, 0, |items|);
    ScheduleWaits(outcomes, 0, |items|);
  }
}
