/** The Herd app's session store, fed by the socket server. Sessions carry no terminal
    details here, and a single five-minute inactivity limit applies whatever the status.
    The cleanup collects the ids of the timed-out sessions first and then removes them
    one id at a time. */
module HerdStore {

  import opened Wrappers
  import opened AgentSessions
  import opened SessionTable

  class AgentStore {
    var sessions: seq<AgentSession>

    /** No two tracked sessions share an id. */
    ghost predicate Valid()
      reads this
    {
      UniqueIds(sessions)
    }

    constructor ()
      ensures Valid() && sessions == []
    {
      sessions := [];
    }

    /** `totalCount`. */
    function TotalCount(): nat
      reads this
    {
      |sessions|
    }

    /** `idleCount`. */
    function IdleCount(): nat
      reads this
    {
      CountStatus(sessions, Idle)
    }

    /** `workingCount`: together with the idle count it makes up the total. */
    function WorkingCount(): (n: nat)
      reads this
      ensures n + IdleCount() == TotalCount()
    {
      CountsPartition(sessions);
      CountStatus(sessions, Working)
    }

    /** `addSession`: a new id is appended as a working session started now; a known id
        leaves the store as it was. */
    method AddSession(id: string, cwd: string, now: int)
      requires Valid()
      modifies this
      ensures Valid()
      ensures sessions == Added(old(sessions), id, cwd, None, None, None, now)
      ensures IndexOf(sessions, id).Some?
    {
      AddedSpec(sessions, id, cwd, None, None, None, now);
      if IndexOf(sessions, id).None? {
        sessions := sessions + [NewSession(id, cwd, Working, None, None, None, now)];
        IndexOfUnique(sessions, id, |sessions| - 1);
      }
    }

    /** `removeSession`. */
    method RemoveSession(id: string)
      requires Valid()
      modifies this
      ensures Valid()
      ensures sessions == Removed(old(sessions), id)
      ensures IndexOf(sessions, id).None?
    {
      RemovedSpec(sessions, id);
      sessions := Removed(sessions, id);
    }

    /** `updateSessionStatus`. */
    method UpdateSessionStatus(id: string, status: Status, lastMessage: Option<string>, now: int)
      requires Valid()
      modifies this
      ensures Valid()
      ensures sessions == Edited(old(sessions), id, SetStatus(status, lastMessage, now))
    {
      EditedSpec(sessions, id, SetStatus(status, lastMessage, now));
      match IndexOf(sessions, id) {
        case None =>
        case Some(index) =>
          var s := sessions[index].(status := status, lastActivity := now);
          if lastMessage.Some? {
            s := s.(lastMessage := lastMessage);
          }
          sessions := sessions[index := s];
      }
    }

    /** `cleanupStaleSessions` at clock reading `now`: the timed-out ids are collected,
        then removed one by one; what remains is exactly the sessions active within the
        last five minutes, in their order. */
    method CleanupStaleSessions(now: int)
      requires Valid()
      modifies this
      ensures Valid()
      ensures sessions == Live(old(sessions), now)
    {
      var staleIds := StaleIds(sessions, now);
      ghost var start := sessions;
      var i := 0;
      while i < |staleIds|
        invariant 0 <= i <= |staleIds|
        invariant Valid()
        invariant sessions == RemovedAll(start, staleIds[..i])
      {
        RemoveSession(staleIds[i]);
        RemovedAllStep(start, staleIds, i);
        i := i + 1;
      }
      assert staleIds[..i] == staleIds;
      CleanupRemovesTimedOut(start, now);
    }
  }
}
