/** The failed sign-in limiter, proved against what the whole event history says. */
module LoginLimit {
  import opened Attempts

  /** All events so far, the latest outermost. A success reads no clock. */
  datatype History =
    | Nothing
    | Checked(earlier: History, client: Key, now: real)
    | Failed(earlier: History, client: Key, now: real)
    | Succeeded(earlier: History, client: Key)

  /** The naive rule's log: the failures of a client since its last success. */
  function Failures(h: History, client: Key): seq<real> {
    match h
    case Nothing => []
    case Checked(earlier, _, _) => Failures(earlier, client)
    case Failed(earlier, c, now) => if c == client then Failures(earlier, client) + [now] else Failures(earlier, client)
    case Succeeded(earlier, c) => if c == client then [] else Failures(earlier, client)
  }

  /** The history `h` goes on from `g`, without a success of the client in between. */
  ghost predicate Since(g: History, h: History, client: Key) {
    g == h || (!h.Nothing? && !(h.Succeeded? && h.client == client) && Since(g, h.earlier, client))
  }

  /** What counts are exactly the failures of the client that no success of it has followed. */
  lemma {:induction false} FailuresExactly(h: History, client: Key, x: real)
    ensures x in Failures(h, client)
       <==> exists g :: Since(g, h, client) && g.Failed? && g.client == client && g.now == x
  {
    if !h.Nothing? {
      FailuresExactly(h.earlier, client, x);
      if !(h.Succeeded? && h.client == client) {
        if g :| Since(g, h.earlier, client) && g.Failed? && g.client == client && g.now == x {
          assert Since(g, h, client);
        }
      }
      assert Since(h, h, client);
    }
  }

  predicate Timed(h: History) {
    match h
    case Nothing => false
    case Checked(_, _, _) => true
    case Failed(_, _, _) => true
    case Succeeded(earlier, _) => Timed(earlier)
  }

  /** The latest clock reading. */
  function Latest(h: History): real {
    match h
    case Nothing => 0.0
    case Checked(_, _, now) => now
    case Failed(_, _, now) => now
    case Succeeded(earlier, _) => Latest(earlier)
  }

  /** No clock reading is earlier than the one before. */
  ghost predicate InOrder(h: History) {
    match h
    case Nothing => true
    case Checked(earlier, _, now) => InOrder(earlier) && (Timed(earlier) ==> Latest(earlier) <= now)
    case Failed(earlier, _, now) => InOrder(earlier) && (Timed(earlier) ==> Latest(earlier) <= now)
    case Succeeded(earlier, _) => InOrder(earlier)
  }

  lemma {:induction false} FailuresInOrder(h: History, client: Key)
    requires InOrder(h)
    ensures Sorted(Failures(h, client))
    ensures Failures(h, client) != [] ==> Timed(h)
    ensures forall i :: 0 <= i < |Failures(h, client)| ==> Failures(h, client)[i] <= Latest(h)
  {
    if !h.Nothing? {
      FailuresInOrder(h.earlier, client);
    }
  }

  /** The part of the log that a deque must keep: of it, only some failures that had expired at the latest
      reading may be missing. */
  ghost predicate Keeps(window: real, h: History, client: Key, held: seq<real>) {
    Remains(Failures(h, client), held, Latest(h) - window)
  }

  /** At a new reading, pruning leaves exactly the failures that the naive rule counts. */
  lemma PruneIsExact(window: real, h: History, now: real, client: Key, held: seq<real>)
    requires InOrder(h) && (Timed(h) ==> Latest(h) <= now) && Keeps(window, h, client, held)
    ensures Popped(held, now - window) == Live(Failures(h, client), now - window)
    ensures Remains(Failures(h, client), Popped(held, now - window), now - window)
  {
    FailuresInOrder(h, client);
    PoppedIsLiveOrEmpty(Failures(h, client), held, Latest(h) - window, now - window);
  }

  lemma LaterKeeps(window: real, h: History, now: real, client: Key, held: seq<real>)
    requires InOrder(h) && (Timed(h) ==> Latest(h) <= now) && Keeps(window, h, client, held)
    ensures Remains(Failures(h, client), held, now - window)
  {
    FailuresInOrder(h, client);
    RemainsLonger(Failures(h, client), held, Latest(h) - window, now - window);
  }

  lemma FailureIsKept(window: real, h: History, now: real, client: Key, held: seq<real>)
    requires InOrder(Failed(h, client, now)) && Keeps(window, h, client, held)
    ensures Keeps(window, Failed(h, client, now), client, Popped(held, now - window) + [now])
  {
    PruneIsExact(window, h, now, client, held);
    RemainsAppend(Failures(h, client), Popped(held, now - window), now - window, now);
  }

  class FailedLoginLimiter {
    const limit: int
    const window: real
    const attempts: DequeMap
    ghost var history: History

    ghost predicate Valid()
      reads this, attempts, attempts.deques.Values
    {
      attempts.Valid() && (InOrder(history) ==> forall client :: Keeps(window, history, client, attempts.Held(client)))
    }

    constructor (limit: int, window: real)
      ensures Valid() && this.limit == limit && this.window == window && history == Nothing && fresh(attempts)
    {
      this.limit, this.window, history := limit, window, Nothing;
      attempts := new DequeMap();
    }

    /** Pops what has expired; an emptied deque is replaced by a new one. The deque returned is the one
        stored, so what a caller appends to it is kept. */
    method Prune(client: Key, now: real) returns (d: Deque)
      requires attempts.Valid()
      modifies attempts, attempts.deques.Values
      ensures attempts.Valid() && client in attempts.deques && d == attempts.deques[client]
      ensures d.items == Popped(old(attempts.Held(client)), now - window)
      ensures forall other :: other != client ==> attempts.Held(other) == old(attempts.Held(other))
      ensures attempts.deques.Keys == old(attempts.deques).Keys + {client}
      ensures forall c :: c in attempts.deques ==>
                            fresh(attempts.deques[c]) || attempts.deques[c] in old(attempts.deques.Values)
    {
      d := attempts.Fetch(client);
      d.PopThrough(now - window);
      if d.items == [] {
        attempts.Remove(client);
        d := attempts.Fetch(client);
      }
    }

    /** What a check does to the deques, and its verdict on them. */
    method CheckHeld(client: Key, now: real) returns (verdict: Verdict)
      requires attempts.Valid()
      modifies attempts, attempts.deques.Values
      ensures attempts.Valid()
      ensures verdict == Judge(Popped(old(attempts.Held(client)), now - window), limit, window, now)
      ensures attempts.Held(client) == Popped(old(attempts.Held(client)), now - window)
      ensures forall other :: other != client ==> attempts.Held(other) == old(attempts.Held(other))
    {
      var mine := Prune(client, now);
      verdict := Pass;
      if |mine.items| >= limit {
        if mine.items == [] {
          return EmptyDeque;
        }
        verdict := Refused(RetryAfter(window, now, mine.items[0]));
      }
    }

    /** When events come in clock order, the verdict is the decision on the whole history. */
    method CheckInOrder(client: Key, now: real) returns (verdict: Verdict)
      requires Valid()
      modifies this, attempts, attempts.deques.Values
      ensures Valid() && history == History.Checked(old(history), client, now)
      ensures verdict == Judge(Popped(old(attempts.Held(client)), now - window), limit, window, now)
      ensures attempts.Held(client) == Popped(old(attempts.Held(client)), now - window)
      ensures forall other :: other != client ==> attempts.Held(other) == old(attempts.Held(other))
      ensures InOrder(history) ==>
                verdict == Judge(Live(Failures(old(history), client), now - window), limit, window, now)
    {
      history := History.Checked(history, client, now);
      verdict := CheckHeld(client, now);
      if InOrder(history) {
        PruneIsExact(window, old(history), now, client, old(attempts.Held(client)));
        forall other | other != client
          ensures Keeps(window, history, other, attempts.Held(other))
        {
          LaterKeeps(window, old(history), now, other, old(attempts.Held(other)));
        }
      }
    }

    /** Refuses exactly when the client has at least `limit` failures since its last success that are later than a
        window ago. */
    method Check(client: Key, now: real) returns (verdict: Verdict)
      requires Valid()
      modifies this, attempts, attempts.deques.Values
      ensures Valid() && history == History.Checked(old(history), client, now)
      ensures verdict == Judge(Popped(old(attempts.Held(client)), now - window), limit, window, now)
      ensures attempts.Held(client) == Popped(old(attempts.Held(client)), now - window)
      ensures forall other :: other != client ==> attempts.Held(other) == old(attempts.Held(other))
      ensures InOrder(history) ==>
                verdict == Judge(Live(Failures(old(history), client), now - window), limit, window, now)
      ensures InOrder(history) ==> Fair(Failures(old(history), client), limit, window, now, verdict)
    {
      verdict := CheckInOrder(client, now);
      JudgeIsFair(Failures(old(history), client), limit, window, now);
    }

    /** The append goes to the deque that pruning returned, and is kept because that is the stored one. */
    method PruneAndAppend(client: Key, now: real)
      requires attempts.Valid()
      modifies attempts, attempts.deques.Values
      ensures attempts.Valid()
      ensures attempts.Held(client) == Popped(old(attempts.Held(client)), now - window) + [now]
      ensures forall other :: other != client ==> attempts.Held(other) == old(attempts.Held(other))
    {
      var mine := Prune(client, now);
      mine.Append(now);
    }

    method Failure(client: Key, now: real)
      requires Valid()
      modifies this, attempts, attempts.deques.Values
      ensures Valid() && history == Failed(old(history), client, now)
      ensures attempts.Held(client) == Popped(old(attempts.Held(client)), now - window) + [now]
      ensures forall other :: other != client ==> attempts.Held(other) == old(attempts.Held(other))
    {
      history := Failed(history, client, now);
      PruneAndAppend(client, now);
      if InOrder(history) {
        FailureIsKept(window, old(history), now, client, old(attempts.Held(client)));
        forall other | other != client
          ensures Keeps(window, history, other, attempts.Held(other))
        {
          LaterKeeps(window, old(history), now, other, old(attempts.Held(other)));
        }
      }
    }

    method Success(client: Key)
      requires Valid()
      modifies this, attempts
      ensures Valid() && history == Succeeded(old(history), client)
      ensures attempts.Held(client) == []
      ensures forall other :: other != client ==> attempts.Held(other) == old(attempts.Held(other))
    {
      history := Succeeded(history, client);
      attempts.Remove(client);
      if InOrder(history) {
        forall other | other != client
          ensures Keeps(window, history, other, attempts.Held(other))
        {
          assert Keeps(window, old(history), other, old(attempts.Held(other)));
        }
      }
    }
  }
}
