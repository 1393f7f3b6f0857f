/**
 * The task registry `TASKS`: the running countdowns, keyed by the chat and
 * message they update. A task handle is reduced to whether it is done.
 */
module Registry {

  /** `(chat_id, message_id)` of a countdown message. */
  type Key = (int, int)

  /** The keys whose task has not finished. */
  function Live(tasks: map<Key, bool>): set<Key> {
    set k | k in tasks && !tasks[k]
  }

  class TaskRegistry {

    /** Each registered key and whether its task is done. */
    var tasks: map<Key, bool>

    constructor ()
      ensures tasks == map[]
    {
      tasks := map[];
    }

    /** `TASKS[key] = task`: registers a task, replacing any handle already under `key`. */
    method Insert(key: Key, done: bool)
      modifies this
      ensures tasks == old(tasks)[key := done]
    {
      tasks := tasks[key := done];
    }

    /** `TASKS.pop(key, None)`: drops `key` only, and does nothing when it is absent. */
    method Pop(key: Key)
      modifies this
      ensures tasks == old(tasks) - {key}  // an absent key leaves `tasks` as it was
    {
      tasks := tasks - {key};
    }

    /**
     * `stop_all`: over a snapshot of the registry, cancels every task that is
     * not done, counting them, and drops every entry. `cancelled` is the set of
     * keys whose task had `cancel()` called on it.
     */
    method StopAll() returns (n: nat, cancelled: set<Key>)
      modifies this
      ensures cancelled == Live(old(tasks))
      ensures n == |cancelled|
      ensures tasks == map[]
    {
      var snapshot := tasks;
      var pending := snapshot.Keys;
      n, cancelled := 0, {};
      while pending != {}
        invariant pending <= snapshot.Keys
        invariant tasks.Keys == pending
        invariant forall k :: k in tasks ==> tasks[k] == snapshot[k]
        invariant cancelled == Live(snapshot) - pending
        invariant n == |cancelled|
        decreases pending
      {
        var key :| key in pending;
        assert key !in cancelled;
        if !tasks[key] {
          assert key in Live(snapshot);
          cancelled := cancelled + {key};
          n := n + 1;
        } else {
          assert key !in Live(snapshot);
        }
        tasks := tasks - {key};
        pending := pending - {key};
      }
    }
  }
}
