/** The protocol of one supervised job, as a machine over the events of its supervision, and what holds of
    every run of that machine. */
module Supervision {
  import opened Collectors
  import opened Queue
  import opened Backend

  datatype Status = Queued | Started | Completed | Failed | TimedOut | Cancelling | Cancelled

  /** The answer to a status request, or the exception it raised. */
  datatype Answer = Says(status: Status) | Raised

  /** What listening on the pipe for a second yields. */
  datatype Heard =
    | Said(message: Message)
    | Silence(workerAlive: bool)
    | PipeFault

  datatype Event =
    | Checked(answer: Answer)                  // GET of the job state
    | Clock(now: real)                         // a reading of the monotonic clock
    | Beat(ok: bool)                           // heartbeat
    | Listened(heard: Heard)
    | Stored(id: Id, message: Message)         // added to the durable queue
    | StoreFault
    | Flushed(ok: bool, posts: seq<Observation>)   // every POST of the flush, in order
    | Sent(obs: Observation, ok: bool)         // direct POST of the final observation
    | Acked(id: Id)
    | AckFault
    | Posted(status: Status, answer: Answer)   // POST of a terminal job status
    | Stopped                                  // the worker's process tree is dead
    | PipeClosed

  /** Where the supervisor stands. `beat` is the time of the last heartbeat. */
  datatype Phase =
    | Claimed                       // the worker runs; the deadline is still to be set
    | Timed                         // the deadline is set
    | Head(beat: real)
    | AtDeadline(beat: real)
    | AtHeartbeat(beat: real)
    | Beating
    | Beaten
    | Listening(beat: real)
    | Storing(beat: real, message: Message)
    | Flushing(beat: real)
    | Sending(id: Id, message: Message)
    | Acking(id: Id)
    | Completing
    | Ending(status: Status)        // stop the worker, then report
    | Reporting(status: Status)
    | Failing                       // an exception was caught: stop the worker, then report failure
    | ReportingFailure
    | Leaving(raised: bool)         // the `finally` block
    | Closing(raised: bool)
    | Done(raised: bool)
    | Stuck

  /** The deadline lies `timeout` seconds after the first clock reading. */
  datatype Setup = Setup(job: JobId, timeout: real, deadline: real, heartbeat: real)

  function ReportOf(m: Message): Report
    requires !m.Failure?
  {
    match m
    case Progress(batch) => Partial(batch)
    case Final(_, finding) => Complete(finding)
  }

  function SourceOf(m: Message): string
    requires !m.Failure?
  {
    if m.Progress? then "discovery" else m.source
  }

  /** The observation carries exactly this message of this job, under this id. */
  predicate Carries(obs: Observation, id: Id, job: JobId, m: Message)
    requires !m.Failure?
  {
    obs.id == id && obs.source == SourceOf(m) && obs.payload == Payload(job, ReportOf(m))
  }

  function Step(s: Setup, p: Phase, e: Event): Phase {
    match p
    case Claimed =>
      if !e.Clock? || e.now + s.timeout != s.deadline then Stuck else Timed
    case Timed =>
      if !e.Clock? then Stuck else Head(e.now)
    case Head(beat) =>
      if !e.Checked? then Stuck
      else if !e.answer.Says? then Failing
      else if e.answer.status == Cancelling || e.answer.status == Cancelled then Ending(Cancelled)
      else AtDeadline(beat)
    case AtDeadline(beat) =>
      if !e.Clock? then Stuck else if e.now >= s.deadline then Ending(TimedOut) else AtHeartbeat(beat)
    case AtHeartbeat(beat) =>
      if !e.Clock? then Stuck else if e.now - beat >= s.heartbeat then Beating else Listening(beat)
    case Beating =>
      if !e.Beat? then Stuck else if e.ok then Beaten else Failing
    case Beaten =>
      if !e.Clock? then Stuck else Listening(e.now)
    case Listening(beat) =>
      if !e.Listened? then Stuck
      else if e.heard.Silence? then (if e.heard.workerAlive then Head(beat) else Failing)
      else if !e.heard.Said? || e.heard.message.Failure? then Failing
      else Storing(beat, e.heard.message)
    case Storing(beat, m) =>
      if e.StoreFault? then Failing
      else if !e.Stored? || e.message != m then Stuck
      else if m.Progress? then Flushing(beat)
      else Sending(e.id, m)
    case Flushing(beat) =>
      if !e.Flushed? then Stuck else if e.ok then Head(beat) else Failing
    case Sending(id, m) =>
      if !e.Sent? || m.Failure? || !Carries(e.obs, id, s.job, m) then Stuck
      else if e.ok then Acking(id) else Failing
    case Acking(id) =>
      if e.AckFault? then Failing else if !e.Acked? || e.id != id then Stuck else Completing
    case Completing =>
      if !e.Posted? || e.status != Completed then Stuck
      else if !e.answer.Says? then Failing
      else if e.answer.status == Cancelling then Ending(Cancelled)
      else Leaving(false)
    case Ending(status) =>
      if !e.Stopped? then Stuck else Reporting(status)
    case Reporting(status) =>
      if !e.Posted? || e.status != status then Stuck else if e.answer.Says? then Leaving(false) else Failing
    case Failing =>
      if !e.Stopped? then Stuck else ReportingFailure
    case ReportingFailure =>
      if !e.Posted? || e.status != Failed then Stuck else Leaving(!e.answer.Says?)
    case Leaving(raised) =>
      if !e.Stopped? then Stuck else Closing(raised)
    case Closing(raised) =>
      if !e.PipeClosed? then Stuck else Done(raised)
    case Done(_) => Stuck
    case Stuck => Stuck
  }

  type Trace = seq<Event>

  /** The phase after a trace; supervision starts once the worker runs. */
  function After(s: Setup, t: Trace): Phase {
    if t == [] then Claimed else Step(s, After(s, t[..|t| - 1]), t[|t| - 1])
  }

  /** The trace of a whole supervision. */
  predicate Finished(s: Setup, t: Trace) {
    After(s, t).Done?
  }

  /** A trace the machine can produce, finished or not. */
  predicate Run(s: Setup, t: Trace) {
    !After(s, t).Stuck?
  }

  lemma {:induction false} PrefixRuns(s: Setup, t: Trace, n: nat)
    requires Run(s, t) && n <= |t|
    ensures Run(s, t[..n])
  {
    if n == |t| {
      assert t[..n] == t;
    } else {
      PrefixRuns(s, t[..|t| - 1], n);
      assert t[..|t| - 1][..n] == t[..n];
    }
  }

  // ---------------------------------------------------------------- what was heard and what was reported

  /** The messages received so far, in order. */
  function Messages(t: Trace): seq<Message> {
    if t == [] then []
    else
      var rest, e := Messages(t[..|t| - 1]), t[|t| - 1];
      if e.Listened? && e.heard.Said? then rest + [e.heard.message] else rest
  }

  /** The observations posted directly and answered so far. */
  function Answers(t: Trace): set<Observation> {
    if t == [] then {}
    else
      var rest, e := Answers(t[..|t| - 1]), t[|t| - 1];
      if e.Sent? && e.ok then rest + {e.obs} else rest
  }

  lemma {:induction false} AnswersExactly(t: Trace, obs: Observation)
    ensures obs in Answers(t) <==> Sent(obs, true) in t
  {
    if t != [] {
      AnswersExactly(t[..|t| - 1], obs);
      assert t == t[..|t| - 1] + [t[|t| - 1]];
    }
  }

  // ---------------------------------------------------------------- what was done to the outside

  /** The effects of the agent on its queue and on the server: every id ever queued, how often the queue was
      flushed, and every POST of an observation. */
  datatype Ledger = Ledger(queued: set<Id>, flushes: nat, posts: seq<Observation>)

  function Entered(ledger: Ledger, e: Event): Ledger {
    match e
    case Stored(id, _) => ledger.(queued := ledger.queued + {id})
    case Flushed(_, posts) => ledger.(flushes := ledger.flushes + 1, posts := ledger.posts + posts)
    case Sent(obs, _) => ledger.(posts := ledger.posts + [obs])
    case _ => ledger
  }

  /** The ledger after a trace that found it as `base`. */
  function Account(base: Ledger, t: Trace): Ledger {
    if t == [] then base else Entered(Account(base, t[..|t| - 1]), t[|t| - 1])
  }

  /** Clock readings never go back. */
  ghost predicate Ordered(t: Trace) {
    forall i, j :: 0 <= i < j < |t| && t[i].Clock? && t[j].Clock? ==> t[i].now <= t[j].now
  }

  /** Ordered, and no reading is later than `now`. */
  ghost predicate Timely(t: Trace, now: real) {
    Ordered(t) && forall i :: 0 <= i < |t| && t[i].Clock? ==> t[i].now <= now
  }

  lemma TimelyNext(t: Trace, before: real, e: Event, now: real)
    requires Timely(t, before) && before <= now && (e.Clock? ==> before <= e.now <= now)
    ensures Timely(t + [e], now)
  {
  }

  // ---------------------------------------------------------------- traces and their summaries

  /** Phase, latest clock reading, messages, answers and effects together. */
  datatype View = View(phase: Phase, clock: real, heard: seq<Message>, answered: set<Observation>, ledger: Ledger)

  function Opening(s: Setup, base: Ledger): View {
    View(Claimed, s.deadline - s.timeout, [], {}, base)
  }

  function Observe(s: Setup, v: View, e: Event): View {
    View(
      Step(s, v.phase, e),
      if e.Clock? then e.now else v.clock,
      if e.Listened? && e.heard.Said? then v.heard + [e.heard.message] else v.heard,
      if e.Sent? && e.ok then v.answered + {e.obs} else v.answered,
      Entered(v.ledger, e)
    )
  }

  /** What changes when the final observation is posted. */
  lemma SentLeads(s: Setup, v: View, id: Id, m: Message, obs: Observation, ok: bool)
    requires v.phase == Sending(id, m) && m.Final? && Carries(obs, id, s.job, m)
    ensures var w := Observe(s, v, Sent(obs, ok));
            && w.phase == (if ok then Acking(id) else Failing) && w.heard == v.heard
            && w.answered == (if ok then v.answered + {obs} else v.answered)
            && w.ledger == Ledger(v.ledger.queued, v.ledger.flushes, v.ledger.posts + [obs])
  {
  }

  /** Following the trace event by event, on a clock that never goes back, leads to this view. */
  ghost predicate Leads(s: Setup, base: Ledger, t: Trace, v: View)
    decreases |t|, 2
  {
    if t == [] then v == Opening(s, base) else LastLeads(s, base, t, v)
  }

  ghost predicate LastLeads(s: Setup, base: Ledger, t: Trace, v: View)
    requires t != []
    decreases |t|, 1
  {
    ThenLeads(s, base, t[..|t| - 1], t[|t| - 1], v)
  }

  ghost predicate ThenLeads(s: Setup, base: Ledger, t: Trace, e: Event, v: View)
    decreases |t| + 1, 0
  {
    exists w :: Leads(s, base, t, w) && v == Observe(s, w, e) && (e.Clock? ==> w.clock <= e.now)
  }

  lemma LeadsNext(s: Setup, base: Ledger, t: Trace, v: View, e: Event)
    requires Leads(s, base, t, v) && (e.Clock? ==> v.clock <= e.now)
    ensures Leads(s, base, t + [e], Observe(s, v, e))
  {
    assert (t + [e])[..|t|] == t;
    assert ThenLeads(s, base, t, e, Observe(s, v, e));
    assert LastLeads(s, base, t + [e], Observe(s, v, e));
  }

  /** What the whole trace says, with a given latest clock reading. */
  function Summary(s: Setup, base: Ledger, t: Trace, clock: real): View {
    View(After(s, t), clock, Messages(t), Answers(t), Account(base, t))
  }

  lemma SummaryNext(s: Setup, base: Ledger, t: Trace, w: View, e: Event, v: View)
    requires w == Summary(s, base, t, w.clock) && Timely(t, w.clock)
    requires v == Observe(s, w, e) && (e.Clock? ==> w.clock <= e.now)
    ensures v == Summary(s, base, t + [e], v.clock) && Timely(t + [e], v.clock)
  {
    assert (t + [e])[..|t|] == t;
    TimelyNext(t, w.clock, e, v.clock);
  }

  /** The view before the last event. */
  lemma ViewBefore(s: Setup, base: Ledger, t: Trace, v: View) returns (w: View)
    requires t != [] && Leads(s, base, t, v)
    ensures Leads(s, base, t[..|t| - 1], w) && v == Observe(s, w, t[|t| - 1])
    ensures t[|t| - 1].Clock? ==> w.clock <= t[|t| - 1].now
  {
    var t', e := t[..|t| - 1], t[|t| - 1];
    assert LastLeads(s, base, t, v);
    assert ThenLeads(s, base, t', e, v);
    w :| Leads(s, base, t', w) && v == Observe(s, w, e) && (e.Clock? ==> w.clock <= e.now);
  }

  lemma {:induction false} LeadsExactly(s: Setup, base: Ledger, t: Trace, v: View)
    requires Leads(s, base, t, v)
    ensures v == Summary(s, base, t, v.clock) && Timely(t, v.clock)
  {
    if t != [] {
      var t', e := t[..|t| - 1], t[|t| - 1];
      var w := ViewBefore(s, base, t, v);
      LeadsExactly(s, base, t', w);
      SummaryNext(s, base, t', w, e, v);
      assert t == t' + [e];
    }
  }

  /** The deadline is the timeout after the first reading of the clock. */
  lemma DeadlineIsTimed(s: Setup, t: Trace)
    requires Run(s, t) && t != []
    ensures t[0].Clock? && s.deadline == t[0].now + s.timeout
  {
    PrefixRuns(s, t, 1);
    assert t[..1][..0] == [] && t[..1][0] == t[0];
    assert After(s, t[..1]) == Step(s, Claimed, t[0]);
  }

  /** The terminal statuses requested so far, in order. */
  function Reports(t: Trace): seq<Status> {
    if t == [] then []
    else
      var rest, e := Reports(t[..|t| - 1]), t[|t| - 1];
      if e.Posted? then rest + [e.status] else rest
  }

  // ---------------------------------------------------------------- reports

  /** A status with which the loop is left, after these requests. */
  ghost predicate WindsUp(status: Status, r: seq<Status>) {
    (r == [] && (status == Cancelled || status == TimedOut)) || (r == [Completed] && status == Cancelled)
  }

  /** What may have been requested when an exception reaches the handler. */
  ghost function Unreported(): set<seq<Status>> {
    {[], [Cancelled], [TimedOut], [Completed], [Completed, Cancelled]}
  }

  /** The nine sequences of terminal statuses that a supervision can request. */
  ghost function Outcomes(): set<seq<Status>> {
    { [Completed], [Completed, Cancelled], [Completed, Failed], [Completed, Cancelled, Failed],
      [Cancelled], [Cancelled, Failed], [TimedOut], [TimedOut, Failed], [Failed] }
  }

  /** The statuses requested on the way to each phase. */
  ghost predicate ReportsSoFar(p: Phase, r: seq<Status>) {
    match p
    case Ending(status) => WindsUp(status, r)
    case Reporting(status) => WindsUp(status, r)
    case Failing => r in Unreported()
    case ReportingFailure => r in Unreported()
    case Leaving(raised) => r in Outcomes() && (raised ==> r[|r| - 1] == Failed)
    case Closing(raised) => r in Outcomes() && (raised ==> r[|r| - 1] == Failed)
    case Done(raised) => r in Outcomes() && (raised ==> r[|r| - 1] == Failed)
    case Stuck => true
    case _ => r == []
  }

  lemma ReportStep(s: Setup, p: Phase, e: Event, r: seq<Status>)
    requires ReportsSoFar(p, r)
    ensures ReportsSoFar(Step(s, p, e), if e.Posted? then r + [e.status] else r)
  {
    if e.Posted? {
      assert |r| == 0 ==> r + [e.status] == [e.status];
      assert |r| == 1 ==> r + [e.status] == [r[0], e.status];
      assert |r| == 2 ==> r + [e.status] == [r[0], r[1], e.status];
    }
  }

  lemma {:induction false} ReportsFollow(s: Setup, t: Trace)
    ensures ReportsSoFar(After(s, t), Reports(t))
  {
    if t != [] {
      ReportsFollow(s, t[..|t| - 1]);
      ReportStep(s, After(s, t[..|t| - 1]), t[|t| - 1], Reports(t[..|t| - 1]));
    }
  }

  /** A supervision requests between one and three terminal statuses, and ends in an exception only if a final
      "failed" could not be delivered. */
  lemma ReportsAreBounded(s: Setup, t: Trace)
    requires Finished(s, t)
    ensures Reports(t) in Outcomes() && 1 <= |Reports(t)| <= 3
    ensures After(s, t).raised ==> Reports(t)[|Reports(t)| - 1] == Failed
  {
    ReportsFollow(s, t);
  }

  /** One more event of a run, at the time `now`. */
  lemma Next(s: Setup, t: Trace, e: Event, now: real) returns (longer: Trace)
    requires Timely(t, now) && (e.Clock? ==> e.now == now)
    ensures longer == t + [e] && After(s, longer) == Step(s, After(s, t), e)
    ensures Reports(longer) == if e.Posted? then Reports(t) + [e.status] else Reports(t)
    ensures Timely(longer, now)
  {
    longer := t + [e];
    assert longer[..|t|] == t;
    TimelyNext(t, now, e, now);
  }

  /** The clock at the start of a run. */
  function Begun(s: Setup): real {
    s.deadline - s.timeout
  }

  lemma RunToHead(s: Setup) returns (t: Trace)
    ensures After(s, t) == Head(Begun(s)) && Reports(t) == [] && Timely(t, Begun(s))
  {
    t := Next(s, [], Clock(Begun(s)), Begun(s));
    t := Next(s, t, Clock(Begun(s)), Begun(s));
  }

  /** A run that passes the deadline check. */
  lemma RunToHeartbeat(s: Setup) returns (t: Trace)
    requires s.timeout > 0.0
    ensures After(s, t) == AtHeartbeat(Begun(s)) && Reports(t) == [] && Timely(t, Begun(s))
  {
    t := RunToHead(s);
    t := Next(s, t, Checked(Says(Started)), Begun(s));
    t := Next(s, t, Clock(Begun(s)), Begun(s));
  }

  /** A run that gets to listen, with a heartbeat on the way if one is due. */
  lemma RunToListening(s: Setup) returns (t: Trace)
    requires s.timeout > 0.0
    ensures After(s, t) == Listening(Begun(s)) && Reports(t) == [] && Timely(t, Begun(s))
  {
    t := RunToHeartbeat(s);
    t := Next(s, t, Clock(Begun(s)), Begun(s));
    if s.heartbeat <= 0.0 {
      t := Next(s, t, Beat(true), Begun(s));
      t := Next(s, t, Clock(Begun(s)), Begun(s));
    }
  }

  /** A run up to the point where completion is reported. */
  lemma RunToCompletion(s: Setup) returns (t: Trace)
    requires s.timeout > 0.0
    ensures After(s, t) == Completing && Reports(t) == [] && Timely(t, Begun(s))
  {
    var m := Final("dns", Reading(""));
    t := RunToListening(s);
    t := Next(s, t, Listened(Said(m)), Begun(s));
    t := Next(s, t, Stored(0, m), Begun(s));
    var obs := Observation(0, "dns", 0.0, Payload(s.job, Complete(Reading(""))));
    t := Next(s, t, Sent(obs, true), Begun(s));
    t := Next(s, t, Acked(0), Begun(s));
  }

  /** A run that is called off before any work. */
  lemma RunToEnding(s: Setup, status: Status) returns (t: Trace, now: real)
    requires status == Cancelled || status == TimedOut
    ensures After(s, t) == Ending(status) && Reports(t) == [] && Timely(t, now)
  {
    t := RunToHead(s);
    if status == Cancelled {
      now := Begun(s);
      t := Next(s, t, Checked(Says(Cancelled)), now);
    } else {
      now := if s.deadline < Begun(s) then Begun(s) else s.deadline;
      t := Next(s, t, Checked(Says(Started)), now);
      t := Next(s, t, Clock(now), now);
    }
  }

  /** Stopping and reporting why, with or without an exception. */
  lemma RunToWoundUp(s: Setup, t: Trace, raised: bool, now: real) returns (longer: Trace)
    requires After(s, t).Ending? && Timely(t, now)
    ensures After(s, longer) == (if raised then Failing else Leaving(false)) && Timely(longer, now)
    ensures Reports(longer) == Reports(t) + [After(s, t).status]
  {
    var status := After(s, t).status;
    longer := Next(s, t, Stopped, now);
    longer := Next(s, longer, Posted(status, if raised then Raised else Says(status)), now);
  }

  /** The `finally` block. */
  lemma RunToEnd(s: Setup, t: Trace, now: real) returns (longer: Trace)
    requires After(s, t) == Leaving(false) && Timely(t, now)
    ensures Finished(s, longer) && Timely(longer, now) && Reports(longer) == Reports(t)
  {
    longer := Next(s, t, Stopped, now);
    longer := Next(s, longer, PipeClosed, now);
  }

  /** The handler, if an exception was raised, and the `finally` block. */
  lemma RunToDone(s: Setup, t: Trace, raised: bool, now: real) returns (longer: Trace)
    requires After(s, t) == (if raised then Failing else Leaving(false)) && Timely(t, now)
    ensures Finished(s, longer) && Timely(longer, now)
    ensures Reports(longer) == if raised then Reports(t) + [Failed] else Reports(t)
  {
    longer := t;
    if raised {
      longer := Next(s, longer, Stopped, now);
      longer := Next(s, longer, Posted(Failed, Says(Failed)), now);
    }
    longer := RunToEnd(s, longer, now);
  }

  /** From the report of completion on: with or without a cancellation in the meantime. */
  lemma RunFromCompletion(s: Setup, cancelled: bool, raised: bool) returns (t: Trace)
    requires s.timeout > 0.0
    ensures After(s, t) == (if raised then Failing else Leaving(false)) && Timely(t, Begun(s))
    ensures Reports(t) == if cancelled then [Completed, Cancelled] else [Completed]
  {
    t := RunToCompletion(s);
    var answer := if cancelled then Says(Cancelling) else if raised then Raised else Says(Completed);
    t := Next(s, t, Posted(Completed, answer), Begun(s));
    if cancelled {
      t := RunToWoundUp(s, t, raised, Begun(s));
    }
  }

  /** A possible sequence of reports without a last "failed". */
  function Planned(r: seq<Status>): seq<Status>
    requires r != []
  {
    if r[|r| - 1] == Failed then r[..|r| - 1] else r
  }

  lemma PlannedCases(r: seq<Status>)
    requires r in Outcomes()
    ensures Planned(r) in Unreported() && (Completed in Planned(r) ==> Completed in r)
    ensures r[|r| - 1] != Failed ==> Planned(r) != []
    ensures r == if r[|r| - 1] == Failed then Planned(r) + [Failed] else Planned(r)
  {
    assert [Completed, Cancelled, Failed][..2] == [Completed, Cancelled];
    assert [Completed, Failed][..1] == [Completed];
    assert [Cancelled, Failed][..1] == [Cancelled];
    assert [TimedOut, Failed][..1] == [TimedOut];
  }

  lemma RunToPlanned(s: Setup, planned: seq<Status>, raised: bool) returns (t: Trace, now: real)
    requires planned in Unreported() && (!raised ==> planned != []) && (Completed in planned ==> s.timeout > 0.0)
    ensures After(s, t) == (if raised then Failing else Leaving(false)) && Reports(t) == planned && Timely(t, now)
  {
    now := Begun(s);
    if planned == [] {
      t := RunToHead(s);
      t := Next(s, t, Checked(Raised), now);
    } else if planned[0] == Completed {
      t := RunFromCompletion(s, |planned| == 2, raised);
    } else {
      t, now := RunToEnding(s, planned[0]);
      t := RunToWoundUp(s, t, raised, now);
    }
  }

  lemma RunToReports(s: Setup, r: seq<Status>) returns (t: Trace)
    requires r in Outcomes() && (Completed in r ==> s.timeout > 0.0)
    ensures Finished(s, t) && Ordered(t) && Reports(t) == r
  {
    PlannedCases(r);
    var now;
    t, now := RunToPlanned(s, Planned(r), r[|r| - 1] == Failed);
    t := RunToDone(s, t, r[|r| - 1] == Failed, now);
  }

  /** The supervisor is only winding up. */
  predicate WindingUp(p: Phase) {
    || ((p.Ending? || p.Reporting?) && p.status != Completed)
    || p.Failing? || p.ReportingFailure? || p.Leaving? || p.Closing? || p.Done?
  }

  /** Work that must not happen once the job is called off. */
  predicate IsWork(e: Event) {
    e.Stored? || e.Flushed? || e.Sent? || e.Acked? || e.Listened? || (e.Posted? && e.status == Completed)
  }

  lemma WindingStep(s: Setup, p: Phase, e: Event)
    requires WindingUp(p) && !Step(s, p, e).Stuck?
    ensures WindingUp(Step(s, p, e)) && !IsWork(e)
  {
  }

  /** Without time to run, a supervision only reaches the deadline check or is wound up. */
  predicate OutOfTime(p: Phase) {
    p.Claimed? || p.Timed? || p.Head? || p.AtDeadline? || WindingUp(p)
  }

  lemma {:induction false} NoTimeNoCompletion(s: Setup, t: Trace)
    requires Run(s, t) && Ordered(t) && s.timeout <= 0.0
    ensures OutOfTime(After(s, t)) && Completed !in Reports(t)
  {
    if t != [] {
      var n := |t| - 1;
      PrefixRuns(s, t, n);
      NoTimeNoCompletion(s, t[..n]);
      DeadlineIsTimed(s, t);
      if WindingUp(After(s, t[..n])) {
        WindingStep(s, After(s, t[..n]), t[n]);
      }
    }
  }

  /** With an ordered clock, the nine sequences are exactly those that a supervision can request, and those
      with "completed" need a positive timeout. */
  lemma ReportsExactly(s: Setup, r: seq<Status>)
    ensures r in Outcomes() && (Completed in r ==> s.timeout > 0.0)
       <==> exists t :: Finished(s, t) && Ordered(t) && Reports(t) == r
  {
    if r in Outcomes() && (Completed in r ==> s.timeout > 0.0) {
      var t := RunToReports(s, r);
    }
    forall t | Finished(s, t) && Ordered(t)
      ensures Reports(t) in Outcomes() && (Completed in Reports(t) ==> s.timeout > 0.0)
    {
      ReportsAreBounded(s, t);
      if s.timeout <= 0.0 {
        NoTimeNoCompletion(s, t);
      }
    }
  }

  // ---------------------------------------------------------------- the worker is stopped

  /** The worker is dead from its first stop on: in these phases it has been stopped. */
  predicate MustBeStopped(p: Phase) {
    p.Reporting? || p.ReportingFailure? || p.Closing? || p.Done?
  }

  /** Phases in which the pipe is still read. */
  predicate MayListen(p: Phase) {
    || p.Claimed? || p.Timed? || p.Head? || p.AtDeadline? || p.AtHeartbeat? || p.Beating? || p.Beaten?
    || p.Listening? || p.Storing? || p.Flushing?
  }

  lemma {:induction false} StoppedBefore(s: Setup, t: Trace)
    requires Run(s, t)
    ensures MustBeStopped(After(s, t)) ==> Stopped in t
    ensures MayListen(After(s, t)) ==> Stopped !in t
  {
    if t != [] {
      var t' := t[..|t| - 1];
      PrefixRuns(s, t, |t| - 1);
      StoppedBefore(s, t');
      assert t == t' + [t[|t| - 1]];
    }
  }

  /** A finished supervision has stopped the worker and closed the pipe last of all, and it never listens to a
      worker it has stopped. */
  lemma WorkerIsStopped(s: Setup, t: Trace)
    requires Finished(s, t)
    ensures |t| >= 2 && t[|t| - 2] == Stopped && t[|t| - 1] == PipeClosed
    ensures forall i :: 0 <= i < |t| && t[i].Listened? ==> Stopped !in t[..i]
  {
    forall i | 0 <= i < |t| && t[i].Listened?
      ensures Stopped !in t[..i]
    {
      PrefixRuns(s, t, i);
      PrefixRuns(s, t, i + 1);
      assert t[..i + 1][..i] == t[..i];
      StoppedBefore(s, t[..i]);
    }
    var t' := t[..|t| - 1];
    PrefixRuns(s, t, |t| - 1);
    assert After(s, t').Closing?;
    assert t'[|t'| - 1] == Stopped;
  }

  // ---------------------------------------------------------------- after a cancellation or the deadline

  /** The loop head saw a cancellation, or the clock reading right after it was too late. */
  predicate Called(s: Setup, t: Trace, i: nat)
    requires i < |t|
  {
    || (t[i].Checked? && (t[i].answer == Says(Cancelling) || t[i].answer == Says(Cancelled)))
    || (i > 0 && t[i - 1].Checked? && t[i].Clock? && t[i].now >= s.deadline)
  }

  lemma {:induction false} CalledOffStaysOff(s: Setup, t: Trace, i: nat)
    requires Run(s, t) && i < |t| && Called(s, t, i)
    ensures WindingUp(After(s, t))
    ensures forall k :: i < k < |t| ==> !IsWork(t[k])
  {
    var t' := t[..|t| - 1];
    PrefixRuns(s, t, |t| - 1);
    if i < |t'| {
      assert t'[..i] == t[..i];
      CalledOffStaysOff(s, t', i);
      WindingStep(s, After(s, t'), t[|t'|]);
    }
  }

  /** What has been reported since the job was called off for the given reason. */
  ghost predicate CallReported(p: Phase, reason: Status, r: seq<Status>) {
    match p
    case Ending(status) => r == [] && status == reason
    case Reporting(status) => r == [] && status == reason
    case _ => r != [] && r[0] == reason && Completed !in r[1..]
  }

  lemma {:induction false} CalledOffReports(s: Setup, t: Trace, i: nat)
    requires Run(s, t) && i < |t| && Called(s, t, i)
    ensures CallReported(After(s, t), if t[i].Checked? then Cancelled else TimedOut, Reports(t))
  {
    var t' := t[..|t| - 1];
    PrefixRuns(s, t, |t| - 1);
    if i < |t'| {
      assert t'[..i] == t[..i];
      CalledOffReports(s, t', i);
      CalledOffStaysOff(s, t', i);
    } else {
      ReportsFollow(s, t');
    }
  }

  /** Once the loop head sees a cancellation or a passed deadline, no observation is queued, flushed or
      posted and "completed" is not reported; what is reported next is the reason. */
  lemma CalledOffMeansNoResult(s: Setup, t: Trace, i: nat)
    requires Finished(s, t) && i < |t| && Called(s, t, i)
    ensures forall k :: i < k < |t| ==> !t[k].Sent? && !t[k].Stored? && !t[k].Flushed?
    ensures Completed !in Reports(t)
    ensures Reports(t) != [] && Reports(t)[0] == if t[i].Checked? then Cancelled else TimedOut
  {
    CalledOffStaysOff(s, t, i);
    CalledOffReports(s, t, i);
  }

  lemma {:induction false} IdleKeepsAccounts(base: Ledger, t: Trace, n: nat)
    requires n <= |t| && forall k :: n <= k < |t| ==> !IsWork(t[k])
    ensures Account(base, t) == Account(base, t[..n])
  {
    if n == |t| {
      assert t[..n] == t;
    } else {
      IdleKeepsAccounts(base, t[..|t| - 1], n);
      assert t[..|t| - 1][..n] == t[..n];
    }
  }

  /** From the moment the loop head sees a cancellation or a passed deadline, the queue gets no new id, is not
      flushed again, and no observation is posted. */
  lemma CalledOffHasNoEffect(s: Setup, base: Ledger, t: Trace, i: nat)
    requires Run(s, t) && i < |t| && Called(s, t, i)
    ensures Account(base, t) == Account(base, t[..i])
  {
    CalledOffStaysOff(s, t, i);
    IdleKeepsAccounts(base, t, i);
  }

  // ---------------------------------------------------------------- completion

  /** The last message heard so far is this one. */
  ghost predicate LastHeard(t: Trace, m: Message) {
    Messages(t) != [] && Messages(t)[|Messages(t)| - 1] == m
  }

  /** The final message was the last one heard, it was queued under the observation's id, and the
      server answered the observation. */
  ghost predicate Delivered(s: Setup, t: Trace, obs: Observation, m: Message) {
    && LastHeard(t, m) && m.Final? && Carries(obs, obs.id, s.job, m)
    && Stored(obs.id, m) in t && Sent(obs, true) in t
  }

  ghost predicate DeliveryState(s: Setup, p: Phase, t: Trace) {
    match p
    case Storing(_, m) => LastHeard(t, m) && !m.Failure?
    case Sending(id, m) => LastHeard(t, m) && m.Final? && Stored(id, m) in t
    case Acking(id) => exists obs, m :: Delivered(s, t, obs, m) && obs.id == id
    case Completing => exists obs, m :: Delivered(s, t, obs, m) && Acked(obs.id) in t
    case _ => true
  }

  lemma {:induction false} DeliveryFollows(s: Setup, t: Trace)
    requires Run(s, t)
    ensures DeliveryState(s, After(s, t), t)
  {
    if t != [] {
      var t', e := t[..|t| - 1], t[|t| - 1];
      PrefixRuns(s, t, |t| - 1);
      DeliveryFollows(s, t');
      assert t == t' + [e];
      var p := After(s, t');
      if p.Sending? && e.Sent? && e.ok {
        assert Delivered(s, t, e.obs, p.message);
      } else if p.Acking? && e.Acked? {
        var obs, m :| Delivered(s, t', obs, m) && obs.id == p.id;
        assert Delivered(s, t, obs, m);
      }
    }
  }

  /** When "completed" is requested, the final message has been heard, its observation has been queued,
      answered by the server and removed from the queue. */
  lemma CompletedMeansDelivered(s: Setup, t: Trace, i: nat)
    requires Run(s, t) && i < |t| && t[i].Posted? && t[i].status == Completed
    ensures exists obs, m :: Delivered(s, t[..i], obs, m) && Acked(obs.id) in t[..i]
  {
    PrefixRuns(s, t, i + 1);
    assert t[..i + 1][..i] == t[..i];
    PrefixRuns(s, t, i);
    ReportsFollow(s, t[..i]);
    DeliveryFollows(s, t[..i]);
  }

  lemma {:induction false} MessagesArePrefix(t: Trace, n: nat)
    requires n <= |t|
    ensures Messages(t[..n]) <= Messages(t)
  {
    if n == |t| {
      assert t[..n] == t;
    } else {
      MessagesArePrefix(t[..|t| - 1], n);
      assert t[..|t| - 1][..n] == t[..n];
    }
  }

  lemma {:induction false} ReportIsPosted(t: Trace, status: Status)
    requires status in Reports(t)
    ensures exists i :: 0 <= i < |t| && t[i].Posted? && t[i].status == status
  {
    var t' := t[..|t| - 1];
    if status in Reports(t') {
      ReportIsPosted(t', status);
      var i :| 0 <= i < |t'| && t'[i].Posted? && t'[i].status == status;
      assert t[i].Posted?;
    } else {
      assert t[|t| - 1].Posted?;
    }
  }

  // ---------------------------------------------------------------- the whole delivery protocol

  /** A final message is the last one the worker sends. */
  lemma FinalIsLast(job: Job, completions: seq<Probe>, sent: seq<Message>, heard: seq<Message>)
    requires WorkerOutput(job, completions, sent) && heard <= sent
    requires heard != [] && heard[|heard| - 1].Final?
    ensures heard == sent
  {
    assert sent[|heard| - 1] == heard[|heard| - 1];
  }

  /** The observation behind a completion, and what it found: the last thing the worker had to send. */
  lemma FinalOf(s: Setup, t: Trace, i: nat, job: Job, completions: seq<Probe>, sent: seq<Message>)
    returns (obs: Observation, finding: Finding)
    requires Run(s, t) && i < |t| && t[i].Posted? && t[i].status == Completed
    requires s.job == job.id && WorkerOutput(job, completions, sent) && Messages(t) <= sent
    ensures Sent(obs, true) in t[..i] && obs.payload == Payload(job.id, Complete(finding))
    ensures sent[|sent| - 1].Final? && sent[|sent| - 1].finding == finding
  {
    CompletedMeansDelivered(s, t, i);
    var o, m :| Delivered(s, t[..i], o, m) && Acked(o.id) in t[..i];
    MessagesArePrefix(t, i);
    FinalIsLast(job, completions, sent, Messages(t[..i]));
    obs, finding := o, m.finding;
  }

  /** A discovery job reported as completed has had its complete scan accepted: the observation sent carries
      the worker's final result, and its device list is exactly the devices of every progress batch that the
      worker sent, in order, whichever of those batches reached the server. If the pool ran every host of the
      network, the scan counts them all, and its devices are hosts of it. */
  lemma CompletedHasEveryDevice(s: Setup, t: Trace, i: nat, job: Job, completions: seq<Probe>, sent: seq<Message>)
    requires Run(s, t) && i < |t| && t[i].Posted? && t[i].status == Completed
    requires job.kind == Discovery && s.job == job.id
    requires WorkerOutput(job, completions, sent) && Messages(t) <= sent
    ensures exists obs, scan :: Sent(obs, true) in t[..i] && obs.payload == Payload(job.id, Complete(Scanned(scan)))
                                && Covers(scan, completions, sent) && OfAllHosts(job, completions, scan)
  {
    var obs, finding := FinalOf(s, t, i, job, completions, sent);
    OutputIsCovered(job, completions, sent);
    assert obs.payload == Payload(job.id, Complete(Scanned(finding.scan)));
  }
}
