/** The protocol of a supervised job in terms of its events alone: which event may follow which, and what each
    kind of event leads to. */
module Protocol {
  import opened Collectors
  import opened Queue
  import opened Backend
  import opened Supervision

  /** An event that the source raises an exception for, or that is the exception. A report of failure that raises
      is not one of them: nothing handles that. */
  predicate Fault(e: Event) {
    match e
    case Checked(answer) => answer.Raised?
    case Beat(ok) => !ok
    case Listened(heard) => heard == Silence(false) || heard.PipeFault? || (heard.Said? && heard.message.Failure?)
    case StoreFault => true
    case Flushed(ok, _) => !ok
    case Sent(_, ok) => !ok
    case AckFault => true
    case Posted(status, answer) => status != Failed && answer.Raised?
    case _ => false
  }

  /** The job state says that the job is to end. */
  predicate IsCancellation(e: Event) {
    e == Checked(Says(Cancelling)) || e == Checked(Says(Cancelled))
  }

  /** A report of completion that was answered by a cancellation. */
  predicate IsLateCancellation(e: Event) {
    e == Posted(Completed, Says(Cancelling))
  }

  /** The clock was read for the deadline, right after the job state, and it was too late. */
  predicate IsTimeout(s: Setup, t: Trace, i: nat)
    requires i < |t|
  {
    i > 0 && t[i - 1].Checked? && t[i].Clock? && t[i].now >= s.deadline
  }

  /** The clock reading after the latest heartbeat, or the second reading of all. */
  function LastBeat(t: Trace): real {
    if |t| < 2 then 0.0
    else
      var n := |t| - 1;
      if t[n].Clock? && (n == 1 || t[n - 1].Beat?) then t[n].now else LastBeat(t[..n])
  }

  /** What may follow the clock reading that ends the trace. */
  predicate MayFollowClock(s: Setup, t: Trace, e: Event)
    requires t != [] && t[|t| - 1].Clock?
  {
    var n, now := |t| - 1, t[|t| - 1].now;
    if n == 0 then e.Clock?
    else if n == 1 then e.Checked?
    else if t[n - 1].Checked? then (if now >= s.deadline then e.Stopped? else e.Clock?)
    else if t[n - 1].Beat? then e.Listened?
    else if now - LastBeat(t) >= s.heartbeat then e.Beat?
    else e.Listened?
  }

  /** What may follow the worker's stop that ends the trace: the report of what led to it, or the end. */
  predicate MayFollowStop(s: Setup, t: Trace, e: Event)
    requires t != [] && t[|t| - 1].Stopped?
  {
    var n := |t| - 1;
    if n == 0 then false
    else if Fault(t[n - 1]) then e.Posted? && e.status == Failed
    else if IsCancellation(t[n - 1]) || IsLateCancellation(t[n - 1]) then e.Posted? && e.status == Cancelled
    else if t[n - 1].Clock? then e.Posted? && e.status == TimedOut
    else e.PipeClosed?
  }

  /** What may follow a message that was heard, or a second of silence. */
  predicate MayFollowHearing(heard: Heard, e: Event) {
    match heard
    case Silence(_) => e.Checked?
    case Said(message) => e.StoreFault? || (e.Stored? && e.message == message)
    case PipeFault => false
  }

  /** The event may follow the trace. */
  predicate MayFollow(s: Setup, t: Trace, e: Event) {
    if t == [] then e.Clock? && e.now + s.timeout == s.deadline
    else if Fault(t[|t| - 1]) then e.Stopped?
    else
      match t[|t| - 1]
      case Checked(_) => if IsCancellation(t[|t| - 1]) then e.Stopped? else e.Clock?
      case Clock(_) => MayFollowClock(s, t, e)
      case Beat(_) => e.Clock?
      case Listened(heard) => MayFollowHearing(heard, e)
      case Stored(id, m) =>
        if m.Progress? then e.Flushed?
        else m.Final? && e.Sent? && e.obs.id == id && e.obs.source == m.source
             && e.obs.payload == Payload(s.job, Complete(m.finding))
      case Flushed(_, _) => e.Checked?
      case Sent(obs, _) => e.AckFault? || e == Acked(obs.id)
      case Acked(_) => e.Posted? && e.status == Completed
      case Posted(_, _) => e.Stopped?
      case Stopped => MayFollowStop(s, t, e)
      case _ => false
  }

  // ---------------------------------------------------------------- the machine is that protocol

  function AfterClock(s: Setup, t: Trace): Phase
    requires |t| >= 2 && t[|t| - 1].Clock?
  {
    var n, now := |t| - 1, t[|t| - 1].now;
    if n == 1 then Head(now)
    else if t[n - 1].Checked? then (if now >= s.deadline then Ending(TimedOut) else AtHeartbeat(LastBeat(t)))
    else if t[n - 1].Beat? then Listening(now)
    else if now - LastBeat(t) >= s.heartbeat then Beating
    else Listening(LastBeat(t))
  }

  function AfterStop(p: Phase): Phase {
    match p
    case Ending(status) => Reporting(status)
    case Failing => ReportingFailure
    case Leaving(raised) => Closing(raised)
    case _ => Stuck
  }

  function AfterClose(p: Phase): Phase {
    if p.Closing? then Done(p.raised) else Stuck
  }

  /** The phase of a run, from its last events. */
  function Where(s: Setup, t: Trace): Phase {
    if |t| == 0 then Claimed
    else if |t| == 1 then Timed
    else
      var n := |t| - 1;
      if Fault(t[n]) then Failing
      else
        match t[n]
        case Checked(_) => if IsCancellation(t[n]) then Ending(Cancelled) else AtDeadline(LastBeat(t))
        case Clock(now) => AfterClock(s, t)
        case Beat(_) => Beaten
        case Listened(heard) => if heard.Said? then Storing(LastBeat(t), heard.message) else Head(LastBeat(t))
        case Stored(id, m) => if m.Progress? then Flushing(LastBeat(t)) else Sending(id, m)
        case Flushed(_, _) => Head(LastBeat(t))
        case Sent(obs, _) => Acking(obs.id)
        case Acked(_) => Completing
        case Posted(status, answer) =>
          if IsLateCancellation(t[n]) then Ending(Cancelled) else Leaving(status == Failed && answer.Raised?)
        case Stopped => AfterStop(Where(s, t[..n]))
        case PipeClosed => AfterClose(Where(s, t[..n]))
        case _ => Stuck
  }

  lemma LastBeatNext(t: Trace, e: Event)
    requires t != []
    ensures LastBeat(t + [e]) == if e.Clock? && (|t| == 1 || t[|t| - 1].Beat?) then e.now else LastBeat(t)
  {
    assert (t + [e])[..|t|] == t;
  }

  lemma NoClockAtEnd(s: Setup, t: Trace, e: Event)
    requires |t| >= 2 && e.Clock?
    ensures t[|t| - 1].Stopped? || t[|t| - 1].PipeClosed? ==> Step(s, Where(s, t), e).Stuck?
  {
  }

  lemma StepAtClock(s: Setup, t: Trace, e: Event)
    requires |t| >= 2 && e.Clock? && !Step(s, Where(s, t), e).Stuck?
    ensures Step(s, Where(s, t), e) == Where(s, t + [e])
  {
    LastBeatNext(t, e);
    NoClockAtEnd(s, t, e);
  }

  lemma StepAtEnd(s: Setup, t: Trace, e: Event)
    requires |t| >= 2 && (e.Stopped? || e.PipeClosed?) && !Step(s, Where(s, t), e).Stuck?
    ensures Step(s, Where(s, t), e) == Where(s, t + [e])
  {
    assert (t + [e])[..|t|] == t;
  }

  /** The time of the last heartbeat is in the phase, wherever it matters. */
  lemma WherePhase(s: Setup, t: Trace)
    requires |t| >= 2
    ensures var p := Where(s, t);
            p.Head? || p.AtDeadline? || p.AtHeartbeat? || p.Listening? || p.Storing? || p.Flushing? ==>
              p.beat == LastBeat(t)
  {
  }

  lemma StepElsewhere(s: Setup, t: Trace, e: Event)
    requires |t| >= 2 && !e.Clock? && !e.Stopped? && !e.PipeClosed? && !Step(s, Where(s, t), e).Stuck?
    ensures Step(s, Where(s, t), e) == Where(s, t + [e])
  {
    LastBeatNext(t, e);
    WherePhase(s, t);
  }

  lemma StepIsWhere(s: Setup, t: Trace, e: Event)
    requires After(s, t) == Where(s, t) && !Step(s, Where(s, t), e).Stuck?
    ensures Step(s, Where(s, t), e) == Where(s, t + [e])
  {
    if |t| >= 2 {
      match e
      case Clock(_) => StepAtClock(s, t, e);
      case Stopped => StepAtEnd(s, t, e);
      case PipeClosed => StepAtEnd(s, t, e);
      case _ => StepElsewhere(s, t, e);
    }
  }

  lemma {:induction false} RunIsWhere(s: Setup, t: Trace)
    requires Run(s, t)
    ensures After(s, t) == Where(s, t)
  {
    if t != [] {
      var t', e := t[..|t| - 1], t[|t| - 1];
      PrefixRuns(s, t, |t| - 1);
      assert t == t' + [e] && After(s, t) == Step(s, After(s, t'), e);
      RunIsWhere(s, t');
      StepIsWhere(s, t', e);
    }
  }

  lemma StepAfterClock(s: Setup, t: Trace, e: Event)
    requires t != [] && t[|t| - 1].Clock?
    ensures !Step(s, Where(s, t), e).Stuck? <==> MayFollowClock(s, t, e)
  {
  }

  /** Before a stop the machine is where that stop leads on from. */
  lemma BeforeStop(s: Setup, t: Trace)
    requires Run(s, t) && t != [] && t[|t| - 1].Stopped?
    ensures |t| >= 2 && Where(s, t) == AfterStop(Where(s, t[..|t| - 1]))
    ensures var p := Where(s, t[..|t| - 1]); p.Ending? || p.Failing? || p.Leaving?
  {
    var n := |t| - 1;
    PrefixRuns(s, t, n);
    RunIsWhere(s, t[..n]);
  }

  lemma StepAfterStop(s: Setup, t: Trace, e: Event)
    requires Run(s, t) && t != [] && t[|t| - 1].Stopped?
    ensures !Step(s, Where(s, t), e).Stuck? <==> MayFollowStop(s, t, e)
  {
    BeforeStop(s, t);
  }

  lemma StepAfterClose(s: Setup, t: Trace, e: Event)
    requires |t| >= 2 && t[|t| - 1].PipeClosed?
    ensures Step(s, Where(s, t), e).Stuck?
  {
  }

  lemma StepAfterOther(s: Setup, t: Trace, e: Event)
    requires |t| >= 2 && !Fault(t[|t| - 1])
    requires !t[|t| - 1].Clock? && !t[|t| - 1].Stopped? && !t[|t| - 1].PipeClosed? && !Where(s, t).Stuck?
    ensures !Step(s, Where(s, t), e).Stuck? <==> MayFollow(s, t, e)
  {
    var p := Where(s, t);
    match t[|t| - 1]
    case Checked(_) =>
    case Beat(_) =>
    case Listened(_) =>
    case Stored(_, m) =>
    case Flushed(_, _) =>
    case Sent(_, _) =>
    case Acked(_) =>
    case Posted(_, _) =>
  }

  lemma OneEvent(s: Setup, t: Trace)
    requires Run(s, t) && |t| <= 1
    ensures t != [] ==> t[0].Clock?
  {
    if t != [] {
      DeadlineIsTimed(s, t);
    }
  }

  lemma StepExactly(s: Setup, t: Trace, e: Event)
    requires Run(s, t)
    ensures !Step(s, After(s, t), e).Stuck? <==> MayFollow(s, t, e)
  {
    RunIsWhere(s, t);
    if |t| <= 1 {
      OneEvent(s, t);
    } else if !Fault(t[|t| - 1]) {
      match t[|t| - 1]
      case Clock(_) => StepAfterClock(s, t, e);
      case Stopped => StepAfterStop(s, t, e);
      case PipeClosed => StepAfterClose(s, t, e);
      case _ => StepAfterOther(s, t, e);
    }
  }

  /** Which event may follow a run of the machine, in terms of the events before it. */
  lemma MayFollowExactly(s: Setup, t: Trace, e: Event)
    requires Run(s, t)
    ensures Run(s, t + [e]) <==> MayFollow(s, t, e)
  {
    StepExactly(s, t, e);
    assert (t + [e])[..|t|] == t;
  }

  /** The runs of the machine are exactly the traces in which every event may follow the ones before it. */
  lemma {:induction false} RunsExactly(s: Setup, t: Trace)
    ensures Run(s, t) <==> forall i :: 0 <= i < |t| ==> MayFollow(s, t[..i], t[i])
  {
    if t != [] {
      var n := |t| - 1;
      RunsExactly(s, t[..n]);
      assert t == t[..n] + [t[n]];
      assert forall i :: 0 <= i < n ==> t[..n][..i] == t[..i];
      if Run(s, t[..n]) {
        MayFollowExactly(s, t[..n], t[n]);
      } else {
        if Run(s, t) {
          PrefixRuns(s, t, n);
        }
      }
    }
  }

  lemma ClosingIsStopped(s: Setup, t: Trace)
    requires t != [] && Where(s, t).Closing?
    ensures t[|t| - 1].Stopped?
  {
  }

  lemma LeavingIsPosted(s: Setup, t: Trace)
    requires t != [] && Where(s, t).Leaving?
    ensures Where(s, t).raised <==> t[|t| - 1] == Posted(Failed, Raised)
  {
  }

  lemma BeforeClose(s: Setup, t: Trace)
    requires Run(s, t) && |t| >= 2 && t[|t| - 1].PipeClosed?
    ensures After(s, t).Done? && |t| >= 3 && (After(s, t).raised <==> t[|t| - 3] == Posted(Failed, Raised))
  {
    var n := |t| - 1;
    PrefixRuns(s, t, n);
    RunIsWhere(s, t);
    RunIsWhere(s, t[..n]);
    ClosingIsStopped(s, t[..n]);
    BeforeStop(s, t[..n]);
    assert t[..n][..n - 1] == t[..n - 1];
    LeavingIsPosted(s, t[..n - 1]);
  }

  /** A run is finished exactly when the pipe is closed, and it ends in an exception exactly when the report of
      failure before that raised. */
  lemma FinishedExactly(s: Setup, t: Trace)
    requires Run(s, t)
    ensures Finished(s, t) <==> t != [] && t[|t| - 1].PipeClosed?
    ensures Finished(s, t) ==> |t| >= 3 && (After(s, t).raised <==> t[|t| - 3] == Posted(Failed, Raised))
  {
    RunIsWhere(s, t);
    if |t| == 1 {
      OneEvent(s, t);
    } else if t != [] && t[|t| - 1].PipeClosed? {
      var n := |t| - 1;
      PrefixRuns(s, t, n);
      RunIsWhere(s, t[..n]);
      BeforeClose(s, t);
    }
  }

  // ---------------------------------------------------------------- what leads to which report

  lemma FollowsAt(s: Setup, t: Trace, i: nat)
    requires Run(s, t) && i < |t|
    ensures MayFollow(s, t[..i], t[i])
  {
    RunsExactly(s, t);
  }

  /** What came before a report of a terminal status. */
  lemma ReportHasReason(s: Setup, t: Trace, i: nat)
    requires Run(s, t) && i < |t| && t[i].Posted?
    ensures match t[i].status
            case Completed => i > 0 && t[i - 1].Acked?
            case Failed => i > 1 && t[i - 1].Stopped? && Fault(t[i - 2])
            case Cancelled => i > 1 && t[i - 1].Stopped? && (IsCancellation(t[i - 2]) || IsLateCancellation(t[i - 2]))
            case TimedOut => i > 1 && t[i - 1].Stopped? && IsTimeout(s, t, i - 2)
            case _ => false
  {
    FollowsAt(s, t, i);
    if i > 0 {
      assert t[..i][i - 1] == t[i - 1];
      if t[i - 1].Stopped? {
        FollowsAt(s, t, i - 1);
        assert i > 1 ==> t[..i - 1][i - 2] == t[i - 2] && t[..i][i - 2] == t[i - 2];
        assert i > 2 ==> t[..i - 1][i - 3] == t[i - 3];
      }
    }
  }

  lemma {:induction false} PostIsReported(t: Trace, i: nat)
    requires i < |t| && t[i].Posted?
    ensures t[i].status in Reports(t)
  {
    var n := |t| - 1;
    if i < n {
      assert t[..n][i] == t[i];
      PostIsReported(t[..n], i);
    }
  }

  /** A finished run goes on after every event but the last. */
  lemma GoesOn(s: Setup, t: Trace, i: nat)
    requires Finished(s, t) && i < |t| && !t[i].PipeClosed?
    ensures i + 1 < |t| && MayFollow(s, t[..i + 1], t[i + 1]) && t[..i + 1][i] == t[i]
  {
    FinishedExactly(s, t);
    FollowsAt(s, t, i + 1);
  }

  /** After a fault the worker is stopped, and then the failure is reported. */
  lemma FaultIsReported(s: Setup, t: Trace, i: nat)
    requires Finished(s, t) && i < |t| && Fault(t[i])
    ensures i + 2 < |t| && t[i + 1] == Stopped && t[i + 2].Posted? && t[i + 2].status == Failed
  {
    GoesOn(s, t, i);
    GoesOn(s, t, i + 1);
    assert t[..i + 2][i] == t[i];
  }

  /** After the report of failure only the `finally` block is left. */
  lemma FailureIsLast(s: Setup, t: Trace, i: nat)
    requires Finished(s, t) && i < |t| && t[i].Posted? && t[i].status == Failed
    ensures |t| == i + 3 && t[i + 1] == Stopped && t[i + 2] == PipeClosed
  {
    GoesOn(s, t, i);
    GoesOn(s, t, i + 1);
    assert t[..i + 2][i] == t[i];
    if i + 3 < |t| {
      FollowsAt(s, t, i + 3);
    }
  }

  lemma NothingReportedYet(s: Setup, t: Trace, i: nat)
    requires Run(s, t) && i < |t| && t[i].Listened?
    ensures Reports(t[..i + 1]) == []
  {
    PrefixRuns(s, t, i);
    PrefixRuns(s, t, i + 1);
    assert t[..i + 1][..i] == t[..i];
    ReportsFollow(s, t[..i]);
  }

  lemma ReportsOfFive(t: Trace, i: nat)
    requires |t| == i + 5 && t[i + 1].Stopped? && t[i + 2].Posted? && t[i + 3].Stopped? && t[i + 4].PipeClosed?
    ensures Reports(t) == Reports(t[..i + 1]) + [t[i + 2].status]
  {
    var a, b, c := t[..i + 2], t[..i + 3], t[..i + 4];
    assert a[..i + 1] == t[..i + 1] && b[..i + 2] == a && c[..i + 3] == b && t[..|t| - 1] == c;
    assert Reports(a) == Reports(t[..i + 1]);
    assert Reports(b) == Reports(a) + [t[i + 2].status];
    assert Reports(c) == Reports(b);
  }

  /** A worker that dies in silence, a broken pipe, and an error message end the job as failed, and as nothing
      else: the worker is stopped and "failed" is the only status reported. */
  lemma LostWorkerMeansFailed(s: Setup, t: Trace, i: nat)
    requires Finished(s, t) && i < |t|
    requires t[i] == Listened(Silence(false)) || t[i] == Listened(PipeFault)
             || (t[i].Listened? && t[i].heard.Said? && t[i].heard.message.Failure?)
    ensures i + 2 < |t| && t[i + 1] == Stopped && t[i + 2].Posted? && t[i + 2].status == Failed
    ensures Reports(t) == [Failed]
  {
    FaultIsReported(s, t, i);
    FailureIsLast(s, t, i + 2);
    NothingReportedYet(s, t, i);
    ReportsOfFive(t, i);
  }

  /** "failed" is reported exactly when something raised. */
  lemma FailedExactly(s: Setup, t: Trace)
    requires Finished(s, t)
    ensures Failed in Reports(t) <==> exists i :: 0 <= i < |t| && Fault(t[i])
  {
    if Failed in Reports(t) {
      ReportIsPosted(t, Failed);
      var i :| 0 <= i < |t| && t[i].Posted? && t[i].status == Failed;
      ReportHasReason(s, t, i);
    }
    if i :| 0 <= i < |t| && Fault(t[i]) {
      FaultIsReported(s, t, i);
      PostIsReported(t, i + 2);
    }
  }

  lemma TimeoutIsReported(s: Setup, t: Trace, i: nat)
    requires Finished(s, t) && i < |t| && IsTimeout(s, t, i)
    ensures i + 2 < |t| && t[i + 1].Stopped? && t[i + 2].Posted? && t[i + 2].status == TimedOut
  {
    GoesOn(s, t, i);
    FollowsAt(s, t, i - 1);
    assert i > 1;
    assert t[..i + 1][i - 1] == t[i - 1];
    GoesOn(s, t, i + 1);
    assert t[..i + 2][i] == t[i];
  }

  /** "timed_out" is reported exactly when the deadline check read a clock at or past the deadline. */
  lemma TimedOutExactly(s: Setup, t: Trace)
    requires Finished(s, t)
    ensures TimedOut in Reports(t) <==> exists i :: 0 <= i < |t| && IsTimeout(s, t, i)
  {
    if TimedOut in Reports(t) {
      ReportIsPosted(t, TimedOut);
      var i :| 0 <= i < |t| && t[i].Posted? && t[i].status == TimedOut;
      ReportHasReason(s, t, i);
      assert IsTimeout(s, t, i - 2);
    }
    if i :| 0 <= i < |t| && IsTimeout(s, t, i) {
      TimeoutIsReported(s, t, i);
      PostIsReported(t, i + 2);
    }
  }

  lemma CancellationIsReported(s: Setup, t: Trace, i: nat)
    requires Finished(s, t) && i < |t| && (IsCancellation(t[i]) || IsLateCancellation(t[i]))
    ensures i + 2 < |t| && t[i + 1].Stopped? && t[i + 2].Posted? && t[i + 2].status == Cancelled
  {
    GoesOn(s, t, i);
    GoesOn(s, t, i + 1);
    assert t[..i + 2][i] == t[i];
  }

  /** "cancelled" is reported exactly when the job state said so, or the answer to the report of completion did. */
  lemma CancelledExactly(s: Setup, t: Trace)
    requires Finished(s, t)
    ensures Cancelled in Reports(t) <==> exists i :: 0 <= i < |t| && (IsCancellation(t[i]) || IsLateCancellation(t[i]))
  {
    if Cancelled in Reports(t) {
      ReportIsPosted(t, Cancelled);
      var i :| 0 <= i < |t| && t[i].Posted? && t[i].status == Cancelled;
      ReportHasReason(s, t, i);
    }
    if i :| 0 <= i < |t| && (IsCancellation(t[i]) || IsLateCancellation(t[i])) {
      CancellationIsReported(s, t, i);
      PostIsReported(t, i + 2);
    }
  }

  /** "completed" is reported exactly when the final observation was removed from the queue after its answer. */
  lemma CompletedExactly(s: Setup, t: Trace)
    requires Finished(s, t)
    ensures Completed in Reports(t) <==> exists i :: 0 <= i < |t| && t[i].Acked?
  {
    if Completed in Reports(t) {
      ReportIsPosted(t, Completed);
      var i :| 0 <= i < |t| && t[i].Posted? && t[i].status == Completed;
      ReportHasReason(s, t, i);
    }
    if i :| 0 <= i < |t| && t[i].Acked? {
      GoesOn(s, t, i);
      PostIsReported(t, i + 1);
    }
  }

  /** After the clock was read for it, a heartbeat is sent exactly if the last one is long enough ago. */
  lemma HeartbeatsWhenDue(s: Setup, t: Trace, i: nat)
    requires Finished(s, t) && 2 <= i < |t| && t[i].Clock? && t[i - 1].Clock? && t[i - 2].Checked?
    ensures i + 1 < |t| && (t[i + 1].Beat? || t[i + 1].Listened?)
    ensures t[i + 1].Beat? <==> t[i].now - LastBeat(t[..i]) >= s.heartbeat
  {
    GoesOn(s, t, i);
    FollowsAt(s, t, i - 2);
    assert i > 2;
    assert t[..i + 1][i - 1] == t[i - 1] && t[..i + 1][i - 2] == t[i - 2];
    assert t[..i + 1][..i] == t[..i];
  }
}
