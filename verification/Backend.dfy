/** The server's side of the observation endpoint, seen through a network that may lose requests and replies. */
module Backend {
  import opened Queue

  datatype Observation = Observation(id: Id, source: string, observedAt: real, payload: Payload)

  /** How a request ends for the agent: answered; failed in a way `flush` treats as a network failure
      (no connection, timeout, any HTTP error status); or failed otherwise, for instance an unreadable body. */
  datatype Delivery = Answered | NetworkFailure | OtherFailure

  ghost predicate AppliedOnce(applied: multiset<Id>, store: map<Id, Observation>, id: Id) {
    applied[id] == if id in store then 1 else 0
  }

  ghost predicate AllAppliedOnce(applied: multiset<Id>, store: map<Id, Observation>) {
    forall id :: AppliedOnce(applied, store, id)
  }

  lemma OneMoreApplied(applied: multiset<Id>, store: map<Id, Observation>, obs: Observation)
    requires obs.id !in store && AllAppliedOnce(applied, store)
    ensures AllAppliedOnce(applied[obs.id := applied[obs.id] + 1], store[obs.id := obs])
  {
    var more, larger := applied[obs.id := applied[obs.id] + 1], store[obs.id := obs];
    assert AppliedOnce(applied, store, obs.id);
    forall id
      ensures AppliedOnce(more, larger, id)
    {
      assert AppliedOnce(applied, store, id);
    }
  }

  class Server {
    // The observations of this agent, under the unique key (agent, observation id).
    var store: map<Id, Observation>
    // How many times the effects of each id were applied.
    ghost var applied: multiset<Id>
    // Every POST of an observation that the agent made, whatever became of it.
    ghost var posts: seq<Observation>

    /** Exactly-once effect: what is stored was applied once, and nothing else was. */
    ghost predicate Valid()
      reads `store, `applied
    {
      AllAppliedOnce(applied, store)
    }

    constructor ()
      ensures Valid() && store == map[] && posts == []
    {
      store, applied, posts := map[], multiset{}, [];
    }

    /** Accepts a new id and applies it; reports a known one as a duplicate, without effect. */
    method Ingest(obs: Observation)
      requires Valid()
      modifies `store, `applied
      ensures Valid()
      ensures store == if obs.id in old(store) then old(store) else old(store)[obs.id := obs]
    {
      if obs.id !in store {
        OneMoreApplied(applied, store, obs);
        store := store[obs.id := obs];
        applied := applied[obs.id := applied[obs.id] + 1];
      }
    }

    /** One POST of an observation: it may be lost or refused before it has any effect, and the answer to
        one that was ingested may be lost on the way back. */
    method Post(obs: Observation) returns (d: Delivery)
      requires Valid()
      modifies this
      ensures Valid()
      ensures store == old(store) || (obs.id !in old(store) && store == old(store)[obs.id := obs])
      ensures d.Answered? ==> obs.id in store
      ensures posts == old(posts) + [obs]
    {
      posts := posts + [obs];
      d := *;
      var reached: bool := *;
      if d.Answered? || reached {
        Ingest(obs);
      }
    }
  }
}
