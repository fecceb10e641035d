/** One supervised worker process: listening to it, stopping it, and the bookkeeping of its supervision.
    The environment chooses clock readings, server answers, and what the pipe yields. */
module JobRuns {
  import opened Collectors
  import opened Supervision

  /** A worker process and its end of the pipe: the messages it would send if it were never stopped. */
  class Worker {
    const messages: seq<Message>
    var next: nat
    var alive: bool

    constructor (messages: seq<Message>)
      ensures this.messages == messages && next == 0 && alive
    {
      this.messages := messages;
      next, alive := 0, true;
    }

    /** Up to a second of listening: the next message, a broken pipe, or nothing. */
    method Listen() returns (heard: Heard)
      modifies this`next
      ensures match heard
              case Said(m) => old(next) < |messages| && m == messages[old(next)] && next == old(next) + 1
              case _ => next == old(next)
    {
      var arrives: bool, broken: bool, exited: bool := *, *, *;
      if arrives && next < |messages| {
        heard := Said(messages[next]);
        next := next + 1;
      } else if broken {
        heard := PipeFault;
      } else {
        heard := Silence(alive && !exited);
      }
    }

    method Stop()
      modifies this`alive
      ensures !alive
    {
      alive := false;
    }
  }

  /** How a part of the loop body ends: on to the next part, out of the loop, or in the exception handler. */
  datatype Verdict = GoOn | Leave | Caught

  ghost function PhaseOf(v: Verdict, next: Phase): Phase {
    match v
    case GoOn => next
    case Leave => Leaving(false)
    case Caught => Failing
  }

  /** Nothing new was heard, no new answer came, and nothing was done to the queue or the server. */
  ghost predicate SameNews(before: View, after: View) {
    after.heard == before.heard && after.answered == before.answered && after.ledger == before.ledger
  }

  /** How stopping the worker and reporting why ends. */
  function WoundUp(answer: Answer): Verdict {
    if answer.Says? then Leave else Caught
  }

  /** The events of a heartbeat check that read `due`, and of the heartbeat if it was due. */
  function BeatEvents(due: real, isDue: bool, ok: bool, after: real): Trace {
    if !isDue then [Clock(due)] else if !ok then [Clock(due), Beat(false)] else [Clock(due), Beat(true), Clock(after)]
  }

  /** The events of the exception handler, if there was an exception, and of the `finally` block. */
  function ClosingEvents(faulted: bool, answer: Answer): Trace {
    if faulted then [Stopped, Posted(Failed, answer), Stopped, PipeClosed] else [Stopped, PipeClosed]
  }

  predicate CallsOff(answer: Answer) {
    answer == Says(Cancelling) || answer == Says(Cancelled)
  }

  class JobRun {
    const job: Job
    const worker: Worker
    const heartbeatSeconds: real
    const deadline: real
    var lastBeat: real
    var monotonic: real

    // The events so far, and their summary; the ledger of the agent when the run began.
    ghost const setup: Setup
    ghost const base: Ledger
    ghost var trace: Trace
    ghost var view: View

    ghost predicate Valid()
      reads `trace, `view, `monotonic
    {
      && Leads(setup, base, trace, view) && view.clock <= monotonic
      && setup == Setup(job.id, job.timeout, deadline, heartbeatSeconds)
    }

    /** The job has been claimed and its worker started: the clock is read for the deadline, and again for the
        heartbeat. */
    constructor (job: Job, worker: Worker, heartbeatSeconds: real, ghost base: Ledger)
      ensures Valid() && |trace| == 2 && view == View(Head(lastBeat), lastBeat, [], {}, base)
      ensures this.job == job && this.worker == worker && this.heartbeatSeconds == heartbeatSeconds && this.base == base
    {
      var first: real, second: real := *, *;
      if second < first {
        second := first;
      }
      this.job, this.worker, this.heartbeatSeconds, this.base := job, worker, heartbeatSeconds, base;
      deadline, lastBeat, monotonic := first + job.timeout, second, second;
      ghost var start := Setup(job.id, job.timeout, first + job.timeout, heartbeatSeconds);
      setup, trace, view := start, [], Opening(start, base);
      new;
      Log(Clock(first));
      Log(Clock(second));
    }

    ghost method Log(e: Event)
      requires Valid() && (e.Clock? ==> view.clock <= e.now <= monotonic)
      modifies this`trace, this`view
      ensures Valid() && trace == old(trace) + [e] && view == Observe(setup, old(view), e)
    {
      LeadsNext(setup, base, trace, view, e);
      trace := trace + [e];
      view := Observe(setup, view, e);
    }

    /** Time passes on the monotonic clock, by at least `least`. */
    method Elapse(least: real)
      requires least >= 0.0
      modifies this`monotonic
      ensures monotonic >= old(monotonic) + least
      ensures old(Valid()) ==> Valid()
    {
      var more: real := *;
      monotonic := monotonic + least + if more > 0.0 then more else 0.0;
    }

    /** Stops the worker and reports why, which may raise. */
    method WindUp(status: Status) returns (verdict: Verdict, ghost answer: Answer)
      requires Valid() && view.phase == Ending(status)
      modifies `trace, `view, `monotonic, worker`alive
      ensures Valid() && SameNews(old(view), view) && monotonic >= old(monotonic)
      ensures trace == old(trace) + [Stopped, Posted(status, answer)] && !worker.alive
      ensures verdict == WoundUp(answer) && view.phase == PhaseOf(verdict, Stuck)
    {
      worker.Stop();
      Log(Stopped);
      Elapse(0.0);
      var reply: Answer := *;
      Log(Posted(status, reply));
      answer := reply;
      verdict := WoundUp(reply);
    }

    /** The heartbeat between the deadline check and listening, sent exactly when it is due; one that fails is
        an exception. */
    method Heartbeat() returns (verdict: Verdict, ghost due: real)
      requires Valid() && view.phase == AtHeartbeat(lastBeat)
      modifies this
      ensures Valid() && SameNews(old(view), view) && monotonic >= old(monotonic)
      ensures view.phase == PhaseOf(verdict, Listening(lastBeat)) && verdict != Leave
      ensures trace == old(trace) + BeatEvents(due, due - old(lastBeat) >= heartbeatSeconds, verdict.GoOn?, lastBeat)
      ensures due - old(lastBeat) < heartbeatSeconds ==> verdict.GoOn? && lastBeat == old(lastBeat)
    {
      Elapse(0.0);
      due := monotonic;
      Log(Clock(monotonic));
      if monotonic - lastBeat >= heartbeatSeconds {
        Elapse(0.0);
        var ok: bool := *;
        Log(Beat(ok));
        if !ok {
          return Caught, due;
        }
        Log(Clock(monotonic));
        lastBeat := monotonic;
      }
      verdict := GoOn;
    }

    /** The deadline check, and the heartbeat of a job that still has time. */
    method CheckTime() returns (verdict: Verdict)
      requires Valid() && view.phase == AtDeadline(lastBeat)
      modifies this, worker`alive
      ensures Valid() && SameNews(old(view), view) && monotonic >= old(monotonic)
      ensures view.phase == PhaseOf(verdict, Listening(lastBeat))
      ensures old(trace) + [Clock(old(monotonic))] <= trace
      ensures old(monotonic) >= deadline ==> exists answer ::
                  verdict == WoundUp(answer)
                  && trace == old(trace) + [Clock(old(monotonic)), Stopped, Posted(TimedOut, answer)]
      ensures verdict.GoOn? ==> old(monotonic) < deadline
    {
      Log(Clock(monotonic));
      if monotonic >= deadline {
        ghost var answer;
        verdict, answer := WindUp(TimedOut);
        assert trace == old(trace) + [Clock(old(monotonic)), Stopped, Posted(TimedOut, answer)];
        return;
      }
      ghost var due;
      verdict, due := Heartbeat();
    }

    /** The head of the loop: job state, deadline, heartbeat. A state that calls the job off leads to a stop and
        the report "cancelled", and nothing else. */
    method Guard() returns (verdict: Verdict, ghost state: Answer, ghost answer: Answer)
      requires Valid() && view.phase == Head(lastBeat)
      modifies this, worker`alive
      ensures Valid() && SameNews(old(view), view) && monotonic >= old(monotonic)
      ensures view.phase == PhaseOf(verdict, Listening(lastBeat))
      ensures old(trace) + [Checked(state)] <= trace
      ensures !state.Says? ==> verdict == Caught && trace == old(trace) + [Checked(state)]
      ensures CallsOff(state) ==>
                verdict == WoundUp(answer) && trace == old(trace) + [Checked(state), Stopped, Posted(Cancelled, answer)]
      ensures verdict.GoOn? ==> state.Says? && !CallsOff(state) && old(monotonic) < deadline
    {
      Elapse(0.0);
      var reply: Answer := *;
      state, answer := reply, reply;
      Log(Checked(reply));
      if !reply.Says? {
        return Caught, state, answer;
      }
      if reply.status == Cancelling || reply.status == Cancelled {
        verdict, answer := WindUp(Cancelled);
        return;
      }
      verdict := CheckTime();
    }

    /** Reports completion; a job that is being cancelled in the meantime is stopped and reported cancelled as
        well. */
    method ReportCompletion() returns (verdict: Verdict, ghost completion: Answer, ghost answer: Answer)
      requires Valid() && view.phase == Completing
      modifies `trace, `view, `monotonic, worker`alive
      ensures Valid() && SameNews(old(view), view) && monotonic >= old(monotonic)
      ensures verdict != GoOn && view.phase == PhaseOf(verdict, Stuck)
      ensures if completion == Says(Cancelling)
              then trace == old(trace) + [Posted(Completed, completion), Stopped, Posted(Cancelled, answer)]
                   && verdict == WoundUp(answer) && !worker.alive
              else trace == old(trace) + [Posted(Completed, completion)] && verdict == WoundUp(completion)
    {
      Elapse(0.0);
      var reply: Answer := *;
      completion, answer := reply, reply;
      Log(Posted(Completed, reply));
      verdict := WoundUp(reply);
      if reply.Says? && reply.status == Cancelling {
        verdict, answer := WindUp(Cancelled);
      }
    }

    /** Listening for up to a second; a second without a message is a second of the clock. */
    method Listen() returns (heard: Heard)
      requires Valid()
      modifies `trace, `view, `monotonic, worker`next
      ensures Valid() && view == Observe(setup, old(view), Listened(heard))
      ensures trace == old(trace) + [Listened(heard)]
      ensures monotonic >= old(monotonic) + if heard.Silence? then 1.0 else 0.0
      ensures match heard
              case Said(m) =>
                && old(worker.next) < |worker.messages| && m == worker.messages[old(worker.next)]
                && worker.next == old(worker.next) + 1
              case _ => worker.next == old(worker.next)
    {
      heard := worker.Listen();
      Elapse(if heard.Silence? then 1.0 else 0.0);
      Log(Listened(heard));
    }

    /** The exception handler: the worker is stopped before the failure is reported, which may raise. */
    method ReportFailure() returns (raised: bool, ghost answer: Answer)
      requires Valid() && view.phase == Failing
      modifies `trace, `view, `monotonic, worker`alive
      ensures Valid() && SameNews(old(view), view) && view.phase == Leaving(raised)
      ensures trace == old(trace) + [Stopped, Posted(Failed, answer)] && (raised <==> !answer.Says?)
    {
      worker.Stop();
      Log(Stopped);
      Elapse(0.0);
      var reply: Answer := *;
      Log(Posted(Failed, reply));
      answer := reply;
      raised := !reply.Says?;
    }

    /** The `finally` block: the worker is stopped, and then the pipe closed. */
    method Release()
      requires Valid() && view.phase.Leaving?
      modifies `trace, `view, worker`alive
      ensures Valid() && SameNews(old(view), view) && view.phase == Done(old(view.phase.raised)) && !worker.alive
      ensures trace == old(trace) + [Stopped, PipeClosed]
    {
      worker.Stop();
      Log(Stopped);
      Log(PipeClosed);
    }

    /** The handler, if an exception was raised, and the `finally` block whatever happened. */
    method Close(faulted: bool) returns (raised: bool, ghost answer: Answer)
      requires Valid() && view.phase == if faulted then Failing else Leaving(false)
      modifies `trace, `view, `monotonic, worker`alive
      ensures Valid() && SameNews(old(view), view) && view.phase == Done(raised) && !worker.alive
      ensures trace == old(trace) + ClosingEvents(faulted, answer)
      ensures raised <==> faulted && !answer.Says?
    {
      raised, answer := false, Raised;
      if faulted {
        raised, answer := ReportFailure();
      }
      Release();
    }
  }
}
