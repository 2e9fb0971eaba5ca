/** The Herder app's session store: the ordered list of tracked sessions, updated in
    place by the hook events, the PR monitor and the periodic stale-session sweep. Each
    method is proved against the matching function of SessionTable and keeps session ids
    unique. The sweep timer is left to the caller, which passes the clock reading. */
module HerderStore {

  import opened Wrappers
  import opened PullRequests
  import opened AgentSessions
  import opened SessionTable

  class AgentStore {
    var sessions: seq<AgentSession>

    /** No two tracked sessions share an id. */
    ghost predicate Valid()
      reads this
    {
      UniqueIds(sessions)
    }

    constructor ()
      ensures Valid() && sessions == []
    {
      sessions := [];
    }

    /** `totalCount`. */
    function TotalCount(): nat
      reads this
    {
      |sessions|
    }

    /** `idleCount`: never more than the total, and the rest of the sessions are working. */
    function IdleCount(): (n: nat)
      reads this
      ensures n <= TotalCount()
      ensures TotalCount() - n == CountStatus(sessions, Working)
    {
      CountsPartition(sessions);
      CountStatus(sessions, Idle)
    }

    /** `addSession`: a new id is appended as a working session started now; a known id
        leaves the store as it was. The id is tracked afterwards. */
    method AddSession(id: string, cwd: string, tty: Option<string>, terminalPid: Option<string>,
                      terminalApp: Option<string>, now: int)
      requires Valid()
      modifies this
      ensures Valid()
      ensures sessions == Added(old(sessions), id, cwd, tty, terminalPid, terminalApp, now)
      ensures IndexOf(sessions, id).Some?
    {
      AddedSpec(sessions, id, cwd, tty, terminalPid, terminalApp, now);
      if IndexOf(sessions, id).None? {
        sessions := sessions + [NewSession(id, cwd, Working, tty, terminalPid, terminalApp, now)];
        IndexOfUnique(sessions, id, |sessions| - 1);
      }
    }

    /** `removeSession`: the id is no longer tracked; the rest keep their order. */
    method RemoveSession(id: string)
      requires Valid()
      modifies this
      ensures Valid()
      ensures sessions == Removed(old(sessions), id)
      ensures IndexOf(sessions, id).None?
    {
      RemovedSpec(sessions, id);
      sessions := Removed(sessions, id);
    }

    /** `updateSessionStatus`: the session with the id takes the new status and the clock
        reading as its last activity, and the message when one is given. */
    method UpdateSessionStatus(id: string, status: Status, lastMessage: Option<string>, now: int)
      requires Valid()
      modifies this
      ensures Valid()
      ensures sessions == Edited(old(sessions), id, SetStatus(status, lastMessage, now))
    {
      EditedSpec(sessions, id, SetStatus(status, lastMessage, now));
      match IndexOf(sessions, id) {
        case None =>
        case Some(index) =>
          var s := sessions[index].(status := status, lastActivity := now);
          if lastMessage.Some? {
            s := s.(lastMessage := lastMessage);
          }
          sessions := sessions[index := s];
      }
    }

    /** `setTranscriptPath`. */
    method SetTranscriptPath(id: string, path: string)
      requires Valid()
      modifies this
      ensures Valid()
      ensures sessions == Edited(old(sessions), id, SetTranscript(path))
    {
      EditedSpec(sessions, id, SetTranscript(path));
      match IndexOf(sessions, id) {
        case None =>
        case Some(index) =>
          sessions := sessions[index := sessions[index].(transcriptPath := Some(path))];
      }
    }

    /** `setPRInfo`, as the PR monitor uses it: attaches (or with None clears) the pull
        request of the session with the id. */
    method SetPRInfo(id: string, prInfo: Option<PRInfo>)
      requires Valid()
      modifies this
      ensures Valid()
      ensures sessions == Edited(old(sessions), id, SetPR(prInfo))
    {
      EditedSpec(sessions, id, SetPR(prInfo));
      match IndexOf(sessions, id) {
        case None =>
        case Some(index) =>
          sessions := sessions[index := sessions[index].(prInfo := prInfo)];
      }
    }

    /** `cleanupStaleSessions` at clock reading `now`: drops the idle sessions silent for
        more than 30 minutes and the working ones silent for more than 4 hours. */
    method CleanupStaleSessions(now: int)
      requires Valid()
      modifies this
      ensures Valid()
      ensures sessions == Swept(old(sessions), now)
    {
      SweptSpec(sessions, now);
      sessions := Swept(sessions, now);
    }
  }
}
