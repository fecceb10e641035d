/** The two in-memory limiters, proved against what the whole call history says. */
module RateLimit {
  import opened Attempts

  // ---------------------------------------------------------------- sensitive operations

  /** All calls so far, the latest outermost. */
  datatype History = NoCalls | Then(earlier: History, key: Key, now: real)

  /** The admissions of a key, by the naive rule applied to the whole history. */
  function Admissions(limit: int, window: real, h: History, key: Key): seq<real> {
    match h
    case NoCalls => []
    case Then(earlier, k, now) =>
      var before := Admissions(limit, window, earlier, key);
      if k == key then Counted(before, limit, window, now) else before
  }

  /** A call is an admission exactly if it is of the key and fewer than `limit` earlier ones are later than a
      window ago. */
  lemma AdmissionsExactly(limit: int, window: real, h: History, k: Key, now: real, key: Key)
    ensures Admissions(limit, window, Then(h, k, now), key)
         == Admissions(limit, window, h, key)
            + if k == key && CountLater(Admissions(limit, window, h, key), now - window) < limit then [now] else []
  {
    LiveCounts(Admissions(limit, window, h, key), now - window);
  }

  /** No clock reading is earlier than the one before. */
  ghost predicate InOrder(h: History) {
    h.Then? ==> InOrder(h.earlier) && (h.earlier.Then? ==> h.earlier.now <= h.now)
  }

  lemma {:induction false} AdmissionsInOrder(limit: int, window: real, h: History, key: Key)
    requires InOrder(h)
    ensures Sorted(Admissions(limit, window, h, key))
    ensures forall i :: 0 <= i < |Admissions(limit, window, h, key)| ==>
                          h.Then? && Admissions(limit, window, h, key)[i] <= h.now
  {
    if h.Then? {
      AdmissionsInOrder(limit, window, h.earlier, key);
    }
  }

  /** Stamps `limit` places apart are at least `window` apart. */
  ghost predicate Spaced(times: seq<real>, limit: int, window: real) {
    forall i, j :: 0 <= i < |times| && 0 <= j < |times| && j == i + limit ==> times[j] - times[i] >= window
  }

  lemma SpacedAppend(a: seq<real>, limit: int, window: real, now: real)
    requires Sorted(a) && limit >= 1 && Spaced(a, limit, window) && |Live(a, now - window)| < limit
    ensures Spaced(a + [now], limit, window)
  {
    if limit <= |a| {
      FewerThan(a, now - window, limit);
    }
  }

  /** In every ordered history, any limit + 1 admissions of a key span at least the window. */
  lemma {:induction false} AdmissionsAreSpaced(limit: int, window: real, h: History, key: Key)
    requires InOrder(h) && limit >= 1
    ensures Spaced(Admissions(limit, window, h, key), limit, window)
  {
    if h.Then? {
      var before := Admissions(limit, window, h.earlier, key);
      AdmissionsAreSpaced(limit, window, h.earlier, key);
      AdmissionsInOrder(limit, window, h.earlier, key);
      if |Live(before, h.now - window)| < limit {
        SpacedAppend(before, limit, window, h.now);
      }
    }
  }

  /** In an ordered history, at no later time are more than `limit` admissions of a key live. */
  lemma NeverMoreThanLimit(limit: nat, window: real, h: History, key: Key, now: real)
    requires InOrder(h) && limit >= 1 && (h.Then? ==> h.now <= now)
    ensures |Live(Admissions(limit, window, h, key), now - window)| <= limit
  {
    var times := Admissions(limit, window, h, key);
    AdmissionsInOrder(limit, window, h, key);
    AdmissionsAreSpaced(limit, window, h, key);
    if |times| > limit {
      FewerThan(times, now - window, limit + 1);
      assert times[|times| - 1] - times[|times| - 1 - limit] >= window;
    }
  }

  /** The same on a sorted log with exactly `limit` live stamps. */
  lemma WaitOnLog(times: seq<real>, limit: nat, window: real, now: real)
    requires Sorted(times) && limit >= 1 && |Live(times, now - window)| == limit
    ensures var live := Live(times, now - window);
            var left, wait := window - (now - live[0]), RetryAfter(window, now, live[0]);
            |Live(times, now + wait as real - window)| < limit <==> left <= 1.0 || left == left.Floor as real
  {
    var live := Live(times, now - window);
    LiveInOrder(times, now - window);
    assert live[0] in live;
    RetryAfterBounds(window, now, live[0]);
    LiveTwice(times, now - window, now + RetryAfter(window, now, live[0]) as real - window);
    WaitSuffices(live, window, now, limit);
  }

  /** A refused caller who waits as told is let through by the next call, if no admission of the key comes in
      between, exactly when the oldest live admission was to expire within a second or after a whole number of
      seconds. `g` is the history by then. */
  lemma WaitingSufficesExactly(limit: nat, window: real, h: History, key: Key, now: real, g: History)
    requires InOrder(Then(h, key, now)) && limit >= 1
    requires |Live(Admissions(limit, window, h, key), now - window)| >= limit
    requires Admissions(limit, window, g, key) == Admissions(limit, window, h, key)
    ensures var live := Live(Admissions(limit, window, h, key), now - window);
            var left, wait := window - (now - live[0]), RetryAfter(window, now, live[0]);
            var again := Live(Admissions(limit, window, g, key), now + wait as real - window);
            && Judge(live, limit, window, now) == Refused(wait)
            && (Judge(again, limit, window, now + wait as real).Pass? <==> left <= 1.0 || left == left.Floor as real)
  {
    AdmissionsInOrder(limit, window, h, key);
    NeverMoreThanLimit(limit, window, h, key, now);
    WaitOnLog(Admissions(limit, window, h, key), limit, window, now);
  }

  /** The part of the history that a deque must keep: the admissions of its key, of which only some that had
      expired by the last call may be missing. */
  ghost predicate Keeps(limit: int, window: real, h: History, key: Key, held: seq<real>) {
    Remains(Admissions(limit, window, h, key), held, if h.Then? then h.now - window else 0.0)
  }

  /** A call pops exactly what the naive rule does not count, and leaves what later calls need. */
  lemma OwnKeyIsKept(limit: int, window: real, h: History, held: seq<real>)
    requires h.Then? && InOrder(h) && Keeps(limit, window, h.earlier, h.key, held)
    ensures Popped(held, h.now - window) == Live(Admissions(limit, window, h.earlier, h.key), h.now - window)
    ensures Keeps(limit, window, h, h.key, Checked(held, limit, window, h.now))
  {
    assert Admissions(limit, window, h, h.key)
        == Counted(Admissions(limit, window, h.earlier, h.key), limit, window, h.now);
    AdmissionsInOrder(limit, window, h.earlier, h.key);
    CheckedRemains(Admissions(limit, window, h.earlier, h.key), held,
                   if h.earlier.Then? then h.earlier.now - window else 0.0, limit, window, h.now);
  }

  lemma OtherKeyIsKept(limit: int, window: real, h: History, key: Key, held: seq<real>)
    requires h.Then? && InOrder(h) && key != h.key && Keeps(limit, window, h.earlier, key, held)
    ensures Keeps(limit, window, h, key, held)
  {
    RemainsLonger(Admissions(limit, window, h.earlier, key), held,
                  if h.earlier.Then? then h.earlier.now - window else 0.0, h.now - window);
  }

  class OperationRateLimiter {
    const limit: int
    const window: real
    const attempts: DequeMap
    ghost var history: History

    ghost predicate Valid()
      reads this, attempts, attempts.deques.Values
    {
      attempts.Valid() && (InOrder(history) ==> forall key :: Keeps(limit, window, history, key, attempts.Held(key)))
    }

    constructor (limit: int, window: real)
      ensures Valid() && this.limit == limit && this.window == window && history == NoCalls && fresh(attempts)
    {
      this.limit, this.window, history := limit, window, NoCalls;
      attempts := new DequeMap();
    }

    /** Without assuming anything about the order of clock readings: what the call does to the deques. */
    method Decide(key: Key, now: real) returns (verdict: Verdict)
      requires attempts.Valid()
      modifies attempts, attempts.deques.Values
      ensures attempts.Valid()
      ensures attempts.Held(key) == Checked(old(attempts.Held(key)), limit, window, now)
      ensures forall other :: other != key ==> attempts.Held(other) == old(attempts.Held(other))
      ensures verdict == Judge(Popped(old(attempts.Held(key)), now - window), limit, window, now)
      ensures attempts.Held(key)
           == Popped(old(attempts.Held(key)), now - window) + if verdict.Pass? then [now] else []
    {
      var mine := attempts.Fetch(key);
      mine.PopThrough(now - window);
      if |mine.items| >= limit {
        if mine.items == [] {
          return EmptyDeque;
        }
        return Refused(RetryAfter(window, now, mine.items[0]));
      }
      mine.Append(now);
      verdict := Pass;
    }

    /** When calls come in clock order, the verdict is the decision on the whole history. */
    method CheckInOrder(key: Key, now: real) returns (verdict: Verdict)
      requires Valid()
      modifies this, attempts, attempts.deques.Values
      ensures Valid() && history == Then(old(history), key, now)
      ensures attempts.Held(key)
           == Popped(old(attempts.Held(key)), now - window) + if verdict.Pass? then [now] else []
      ensures forall other :: other != key ==> attempts.Held(other) == old(attempts.Held(other))
      ensures InOrder(history) ==>
                verdict == Judge(Live(Admissions(limit, window, old(history), key), now - window), limit, window, now)
    {
      ghost var held := attempts.Held(key);
      verdict := Decide(key, now);
      history := Then(history, key, now);
      if InOrder(history) {
        OwnKeyIsKept(limit, window, history, held);
        forall other | other != key
          ensures Keeps(limit, window, history, other, attempts.Held(other))
        {
          OtherKeyIsKept(limit, window, history, other, attempts.Held(other));
        }
      }
    }

    /** When calls come in clock order, a call passes exactly when fewer than `limit` admissions of its key are
        later than a window ago, and exactly then it is one more. */
    method Check(key: Key, now: real) returns (verdict: Verdict)
      requires Valid()
      modifies this, attempts, attempts.deques.Values
      ensures Valid() && history == Then(old(history), key, now)
      ensures attempts.Held(key)
           == Popped(old(attempts.Held(key)), now - window) + if verdict.Pass? then [now] else []
      ensures forall other :: other != key ==> attempts.Held(other) == old(attempts.Held(other))
      ensures InOrder(history) ==>
                verdict == Judge(Live(Admissions(limit, window, old(history), key), now - window), limit, window, now)
      ensures InOrder(history) ==> Fair(Admissions(limit, window, old(history), key), limit, window, now, verdict)
      ensures InOrder(history) ==>
                Admissions(limit, window, history, key)
                == Admissions(limit, window, old(history), key) + if verdict.Pass? then [now] else []
    {
      verdict := CheckInOrder(key, now);
      JudgeIsFair(Admissions(limit, window, old(history), key), limit, window, now);
      AdmissionsExactly(limit, window, old(history), key, now, key);
      LiveCounts(Admissions(limit, window, old(history), key), now - window);
    }
  }
}
