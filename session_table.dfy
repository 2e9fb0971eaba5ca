/** The session table as a value: an ordered sequence of sessions keyed by id, and the
    new table each store operation produces. Both store classes are proved against these
    functions; the lemmas here state what the operations promise. */
module SessionTable {

  import opened Wrappers
  import opened PullRequests
  import opened AgentSessions

  /** The ids of the table, in order. */
  function Ids(ss: seq<AgentSession>): (r: seq<string>)
    ensures |r| == |ss| && forall i :: 0 <= i < |ss| ==> r[i] == ss[i].id
  {
    seq(|ss|, i requires 0 <= i < |ss| => ss[i].id)
  }

  /** No two sessions of the table share an id. */
  ghost predicate UniqueIds(ss: seq<AgentSession>) {
    forall i, j :: 0 <= i < j < |ss| ==> ss[i].id != ss[j].id
  }

  /** The position of the first session with the id, if any. */
  function IndexOf(ss: seq<AgentSession>, id: string): (r: Option<nat>)
    ensures r.Some? ==> r.value < |ss| && ss[r.value].id == id
    ensures r.Some? ==> forall i :: 0 <= i < r.value ==> ss[i].id != id
    ensures r.None? ==> forall i :: 0 <= i < |ss| ==> ss[i].id != id
  {
    if ss == [] then None
    else if ss[0].id == id then Some(0)
    else match IndexOf(ss[1..], id)
      case None => None
      case Some(k) => Some(k + 1)
  }

  /** In a table with unique ids, the session with a given id is the one IndexOf finds. */
  lemma IndexOfUnique(ss: seq<AgentSession>, id: string, i: nat)
    requires UniqueIds(ss) && i < |ss| && ss[i].id == id
    ensures IndexOf(ss, id) == Some(i)
  {
  }

  /** `b` keeps some of the elements of `a`, in the order `a` has them. */
  predicate IsSubsequence<T(==)>(b: seq<T>, a: seq<T>)
    decreases |a|
  {
    b == [] || (a != [] && if b[0] == a[0] then IsSubsequence(b[1..], a[1..]) else IsSubsequence(b, a[1..]))
  }

  /** Each element of a subsequence stands at an index no smaller than its own. */
  lemma {:induction false} SubsequenceElements<T>(b: seq<T>, a: seq<T>)
    requires IsSubsequence(b, a)
    ensures |b| <= |a|
    ensures forall x :: x in b ==> x in a
    decreases |a|
  {
    if b != [] {
      if b[0] == a[0] {
        SubsequenceElements(b[1..], a[1..]);
        assert forall x :: x in b ==> x == b[0] || x in b[1..];
      } else {
        SubsequenceElements(b, a[1..]);
      }
    }
  }

  /** A subsequence of a table with unique ids has unique ids. */
  lemma {:induction false} SubsequenceKeepsUnique(b: seq<AgentSession>, a: seq<AgentSession>)
    requires IsSubsequence(b, a) && UniqueIds(a)
    ensures UniqueIds(b)
    decreases |a|
  {
    if b != [] {
      assert UniqueIds(a[1..]);
      if b[0] == a[0] {
        SubsequenceKeepsUnique(b[1..], a[1..]);
        SubsequenceElements(b[1..], a[1..]);
        forall j | 0 < j < |b| ensures b[0].id != b[j].id {
          assert b[j] in b[1..];
          var k :| 0 <= k < |a[1..]| && a[1..][k] == b[j];
          assert a[k + 1] == b[j];
        }
        forall i, j | 0 <= i < j < |b| ensures b[i].id != b[j].id {
          if i > 0 {
            assert b[i] == b[1..][i - 1] && b[j] == b[1..][j - 1];
          }
        }
      } else {
        SubsequenceKeepsUnique(b, a[1..]);
      }
    }
  }

  /** `addSession`: a new id is appended as a working session; a known id changes nothing. */
  function Added(ss: seq<AgentSession>, id: string, cwd: string, tty: Option<string>,
                 terminalPid: Option<string>, terminalApp: Option<string>, now: int): seq<AgentSession>
  {
    if IndexOf(ss, id).Some? then ss
    else ss + [NewSession(id, cwd, Working, tty, terminalPid, terminalApp, now)]
  }

  /** Create is idempotent and keeps ids unique: adding an id already present, with any
      other arguments, leaves the table as it was (in particular its start time). A new
      id adds exactly one session, at the end, working, and keeps every earlier entry. */
  lemma AddedSpec(ss: seq<AgentSession>, id: string, cwd: string, tty: Option<string>,
                  terminalPid: Option<string>, terminalApp: Option<string>, now: int)
    requires UniqueIds(ss)
    ensures var r := Added(ss, id, cwd, tty, terminalPid, terminalApp, now);
      && UniqueIds(r)
      && (IndexOf(ss, id).Some? ==> r == ss)
      && (IndexOf(ss, id).None? ==>
            |r| == |ss| + 1 && r[..|ss|] == ss && r[|ss|].id == id && r[|ss|].status == Working
            && r[|ss|].startTime == now && r[|ss|].lastActivity == now)
    ensures forall cwd', tty', pid', app', now' ::
      Added(Added(ss, id, cwd, tty, terminalPid, terminalApp, now), id, cwd', tty', pid', app', now')
        == Added(ss, id, cwd, tty, terminalPid, terminalApp, now)
  {
    var r := Added(ss, id, cwd, tty, terminalPid, terminalApp, now);
    if IndexOf(ss, id).None? {
      assert r[|ss|].id == id;
      assert IndexOf(r, id).Some? by { IndexOfUnique(r, id, |ss|); }
    }
  }

  /** `removeSession`: every session with the id is dropped; the rest keep their order. */
  function Removed(ss: seq<AgentSession>, id: string): (r: seq<AgentSession>)
    ensures forall s :: s in r <==> s in ss && s.id != id
    ensures |r| <= |ss|
  {
    if ss == [] then []
    else if ss[0].id == id then Removed(ss[1..], id)
    else [ss[0]] + Removed(ss[1..], id)
  }

  lemma {:induction false} RemovedIsSubsequence(ss: seq<AgentSession>, id: string)
    ensures IsSubsequence(Removed(ss, id), ss)
  {
    if ss != [] {
      RemovedIsSubsequence(ss[1..], id);
      var r := Removed(ss, id);
      if ss[0].id == id && r != [] {
        assert r[0] in r;
      }
    }
  }

  /** Removing an absent id changes nothing. */
  lemma {:induction false} RemovedAbsent(ss: seq<AgentSession>, id: string)
    requires IndexOf(ss, id).None?
    ensures Removed(ss, id) == ss
  {
    if ss != [] {
      RemovedAbsent(ss[1..], id);
    }
  }

  /** After a removal no session has the id, every other session is kept in its
      relative order, ids stay unique, and a present id costs exactly one entry. */
  lemma RemovedSpec(ss: seq<AgentSession>, id: string)
    requires UniqueIds(ss)
    ensures var r := Removed(ss, id);
      && (forall i :: 0 <= i < |r| ==> r[i].id != id)
      && (forall s :: s in ss && s.id != id ==> s in r)
      && IsSubsequence(r, ss)
      && UniqueIds(r)
      && (IndexOf(ss, id).None? ==> r == ss)
      && (IndexOf(ss, id).Some? ==> |r| == |ss| - 1)
  {
    var r := Removed(ss, id);
    assert forall i :: 0 <= i < |r| ==> r[i] in r;
    RemovedIsSubsequence(ss, id);
    SubsequenceKeepsUnique(r, ss);
    if IndexOf(ss, id).None? {
      RemovedAbsent(ss, id);
    } else {
      RemovedOneOfUnique(ss, id);
    }
  }

  lemma {:induction false} RemovedOneOfUnique(ss: seq<AgentSession>, id: string)
    requires UniqueIds(ss) && IndexOf(ss, id).Some?
    ensures |Removed(ss, id)| == |ss| - 1
  {
    assert UniqueIds(ss[1..]);
    if ss[0].id == id {
      assert IndexOf(ss[1..], id).None?;
      RemovedAbsent(ss[1..], id);
    } else {
      RemovedOneOfUnique(ss[1..], id);
    }
  }

  /** Removing the id of a session appended to a table without that id gives the table back. */
  lemma {:induction false} RemovedAppended(ss: seq<AgentSession>, s: AgentSession)
    requires IndexOf(ss, s.id).None?
    ensures Removed(ss + [s], s.id) == ss
  {
    if ss == [] {
      assert [s][1..] == [];
    } else {
      assert (ss + [s])[1..] == ss[1..] + [s];
      RemovedAppended(ss[1..], s);
    }
  }

  /** The field changes that `updateSessionStatus`, `setTranscriptPath` and `setPRInfo`
      make to the session they find. */
  datatype Edit =
    | SetStatus(status: Status, lastMessage: Option<string>, now: int)
    | SetTranscript(path: string)
    | SetPR(prInfo: Option<PRInfo>)

  function ApplyEdit(s: AgentSession, e: Edit): AgentSession {
    match e
    case SetStatus(st, msg, now) =>
      s.(status := st, lastActivity := now, lastMessage := if msg.Some? then msg else s.lastMessage)
    case SetTranscript(path) => s.(transcriptPath := Some(path))
    case SetPR(pr) => s.(prInfo := pr)
  }

  /** What each edit changes in a session, and that it keeps everything else: the id
      and working directory, the start time, and every field the edit does not name. */
  lemma ApplyEditSpec(s: AgentSession, e: Edit)
    ensures var t := ApplyEdit(s, e);
      && t.id == s.id && t.cwd == s.cwd && t.startTime == s.startTime
      && t.tty == s.tty && t.terminalPid == s.terminalPid && t.terminalApp == s.terminalApp
    ensures e.SetStatus? ==> var t := ApplyEdit(s, e);
      && t.status == e.status && t.lastActivity == e.now
      && t.lastMessage == (if e.lastMessage.Some? then e.lastMessage else s.lastMessage)
      && t.transcriptPath == s.transcriptPath && t.prInfo == s.prInfo
    ensures e.SetTranscript? ==> ApplyEdit(s, e) == s.(transcriptPath := Some(e.path))
    ensures e.SetPR? ==> ApplyEdit(s, e) == s.(prInfo := e.prInfo)
  {
  }

  /** Applies an edit to the first session with the id; a table without it is unchanged. */
  function Edited(ss: seq<AgentSession>, id: string, e: Edit): (r: seq<AgentSession>)
    ensures |r| == |ss| && Ids(r) == Ids(ss)
  {
    match IndexOf(ss, id)
    case None => ss
    case Some(k) => ss[k := ApplyEdit(ss[k], e)]
  }

  /** An edit on an absent id is a no-op; on a present id it replaces that session by the
      edited one and leaves every other session as it was; ids stay unique. */
  lemma EditedSpec(ss: seq<AgentSession>, id: string, e: Edit)
    requires UniqueIds(ss)
    ensures IndexOf(ss, id).None? ==> Edited(ss, id, e) == ss
    ensures forall k :: 0 <= k < |ss| && ss[k].id == id ==>
      Edited(ss, id, e)[k] == ApplyEdit(ss[k], e)
    ensures forall k :: 0 <= k < |ss| && ss[k].id != id ==> Edited(ss, id, e)[k] == ss[k]
    ensures UniqueIds(Edited(ss, id, e))
  {
    var r := Edited(ss, id, e);
    assert forall i :: 0 <= i < |r| ==> r[i].id == Ids(r)[i] == Ids(ss)[i] == ss[i].id;
  }

  /** Inactivity limits of the Herder store, in seconds: 30 minutes idle, 4 hours working. */
  const IdleSessionTimeout: int := 30 * 60
  const WorkingSessionTimeout: int := 4 * 60 * 60

  /** A session whose inactivity exceeds the limit for its status. */
  predicate IsStale(s: AgentSession, now: int) {
    match s.status
    case Working => now - s.lastActivity > WorkingSessionTimeout
    case Idle => now - s.lastActivity > IdleSessionTimeout
  }

  /** `cleanupStaleSessions` of the Herder store: `removeAll` of the stale sessions. */
  function Swept(ss: seq<AgentSession>, now: int): (r: seq<AgentSession>)
    ensures forall s :: s in r <==> s in ss && !IsStale(s, now)
    ensures |r| <= |ss|
  {
    if ss == [] then []
    else if IsStale(ss[0], now) then Swept(ss[1..], now)
    else [ss[0]] + Swept(ss[1..], now)
  }

  lemma {:induction false} SweptIsSubsequence(ss: seq<AgentSession>, now: int)
    ensures IsSubsequence(Swept(ss, now), ss)
  {
    if ss != [] {
      SweptIsSubsequence(ss[1..], now);
      var r := Swept(ss, now);
      if IsStale(ss[0], now) && r != [] {
        assert r[0] in r;
      }
    }
  }

  /** The sweep removes exactly the idle sessions silent for more than 1800 seconds and
      the working ones silent for more than 14400 seconds; one at exactly its limit is
      kept. Survivors keep their order and ids stay unique. */
  lemma SweptSpec(ss: seq<AgentSession>, now: int)
    requires UniqueIds(ss)
    ensures forall s :: s in ss ==>
      (s in Swept(ss, now) <==>
        (s.status == Idle && now - s.lastActivity <= 1800)
        || (s.status == Working && now - s.lastActivity <= 14400))
    ensures IsSubsequence(Swept(ss, now), ss)
    ensures UniqueIds(Swept(ss, now))
  {
    SweptIsSubsequence(ss, now);
    SubsequenceKeepsUnique(Swept(ss, now), ss);
  }

  /** Inactivity limit of the Herd store, in seconds: 5 minutes whatever the status. */
  const SessionTimeout: int := 5 * 60

  predicate TimedOut(s: AgentSession, now: int) {
    now - s.lastActivity > SessionTimeout
  }

  /** The sessions that have not timed out, in order. */
  function Live(ss: seq<AgentSession>, now: int): (r: seq<AgentSession>)
    ensures forall s :: s in r <==> s in ss && !TimedOut(s, now)
  {
    if ss == [] then []
    else if TimedOut(ss[0], now) then Live(ss[1..], now)
    else [ss[0]] + Live(ss[1..], now)
  }

  /** The ids of the timed-out sessions, in table order. */
  function StaleIds(ss: seq<AgentSession>, now: int): (r: seq<string>)
    ensures forall i :: 0 <= i < |ss| && TimedOut(ss[i], now) ==> ss[i].id in r
    ensures forall x :: x in r ==> exists i :: 0 <= i < |ss| && TimedOut(ss[i], now) && ss[i].id == x
  {
    if ss == [] then []
    else
      var rest := StaleIds(ss[1..], now);
      assert forall i :: 1 <= i < |ss| ==> ss[i] == ss[1..][i - 1];
      if TimedOut(ss[0], now) then [ss[0].id] + rest else rest
  }

  /** The table after `removeSession` for each id of `ids`, in order. */
  function RemovedAll(ss: seq<AgentSession>, ids: seq<string>): seq<AgentSession>
    decreases |ids|
  {
    if ids == [] then ss else Removed(RemovedAll(ss, ids[..|ids| - 1]), ids[|ids| - 1])
  }

  /** Removing one more id of the list extends the removals done so far. */
  lemma RemovedAllStep(ss: seq<AgentSession>, ids: seq<string>, i: nat)
    requires i < |ids|
    ensures RemovedAll(ss, ids[..i + 1]) == Removed(RemovedAll(ss, ids[..i]), ids[i])
  {
    assert ids[..i + 1][..i] == ids[..i];
  }

  /** The sessions whose id is not in `ids`, in order. */
  function WithoutIds(ss: seq<AgentSession>, ids: seq<string>): (r: seq<AgentSession>)
    ensures forall s :: s in r <==> s in ss && s.id !in ids
  {
    if ss == [] then []
    else if ss[0].id in ids then WithoutIds(ss[1..], ids)
    else [ss[0]] + WithoutIds(ss[1..], ids)
  }

  lemma {:induction false} RemovedWithoutIds(ss: seq<AgentSession>, ids: seq<string>, id: string)
    ensures Removed(WithoutIds(ss, ids), id) == WithoutIds(ss, ids + [id])
  {
    if ss != [] {
      RemovedWithoutIds(ss[1..], ids, id);
      assert ss[0].id in ids + [id] <==> ss[0].id in ids || ss[0].id == id;
    }
  }

  /** Removing ids one at a time removes every session whose id is among them. */
  lemma {:induction false} RemovedAllIsWithoutIds(ss: seq<AgentSession>, ids: seq<string>)
    ensures RemovedAll(ss, ids) == WithoutIds(ss, ids)
    decreases |ids|
  {
    if ids == [] {
      WithoutIdsNone(ss);
    } else {
      var init, last := ids[..|ids| - 1], ids[|ids| - 1];
      RemovedAllIsWithoutIds(ss, init);
      RemovedWithoutIds(ss, init, last);
      assert init + [last] == ids;
    }
  }

  lemma {:induction false} WithoutIdsNone(ss: seq<AgentSession>)
    ensures WithoutIds(ss, []) == ss
  {
    if ss != [] {
      WithoutIdsNone(ss[1..]);
    }
  }

  /** Filtering on id membership agrees with filtering on the timeout whenever the two
      tests agree on every session of the table. */
  lemma {:induction false} WithoutIdsIsLive(ss: seq<AgentSession>, ids: seq<string>, now: int)
    requires forall i :: 0 <= i < |ss| ==> (ss[i].id in ids <==> TimedOut(ss[i], now))
    ensures WithoutIds(ss, ids) == Live(ss, now)
  {
    if ss != [] {
      assert ss[0].id in ids <==> TimedOut(ss[0], now);
      assert forall i :: 1 <= i < |ss| ==> ss[i] == ss[1..][i - 1];
      WithoutIdsIsLive(ss[1..], ids, now);
    }
  }

  /** With unique ids, a session's id is stale exactly when that session timed out. */
  lemma StaleIdsExact(ss: seq<AgentSession>, now: int)
    requires UniqueIds(ss)
    ensures forall i :: 0 <= i < |ss| ==> (ss[i].id in StaleIds(ss, now) <==> TimedOut(ss[i], now))
  {
    forall i | 0 <= i < |ss| && ss[i].id in StaleIds(ss, now)
      ensures TimedOut(ss[i], now)
    {
      var j :| 0 <= j < |ss| && TimedOut(ss[j], now) && ss[j].id == ss[i].id;
      assert j == i;
    }
  }

  /** The Herd cleanup, which collects the ids of the timed-out sessions and then removes
      each id in turn, leaves exactly the sessions that have not timed out, in order;
      ids stay unique. */
  lemma CleanupRemovesTimedOut(ss: seq<AgentSession>, now: int)
    requires UniqueIds(ss)
    ensures RemovedAll(ss, StaleIds(ss, now)) == Live(ss, now)
    ensures forall s :: s in RemovedAll(ss, StaleIds(ss, now)) <==> s in ss && now - s.lastActivity <= 300
    ensures UniqueIds(Live(ss, now))
  {
    StaleIdsExact(ss, now);
    RemovedAllIsWithoutIds(ss, StaleIds(ss, now));
    WithoutIdsIsLive(ss, StaleIds(ss, now), now);
    LiveIsSubsequence(ss, now);
    SubsequenceKeepsUnique(Live(ss, now), ss);
  }

  lemma {:induction false} LiveIsSubsequence(ss: seq<AgentSession>, now: int)
    ensures IsSubsequence(Live(ss, now), ss)
  {
    if ss != [] {
      LiveIsSubsequence(ss[1..], now);
      var r := Live(ss, now);
      if TimedOut(ss[0], now) && r != [] {
        assert r[0] in r;
      }
    }
  }

  /** Number of sessions with the given status. */
  function CountStatus(ss: seq<AgentSession>, st: Status): nat {
    if ss == [] then 0
    else CountStatus(ss[1..], st) + (if ss[0].status == st then 1 else 0)
  }

  /** Every session is either idle or working, so the two counts add up to the total. */
  lemma {:induction false} CountsPartition(ss: seq<AgentSession>)
    ensures CountStatus(ss, Idle) + CountStatus(ss, Working) == |ss|
  {
    if ss != [] {
      CountsPartition(ss[1..]);
    }
  }

  /** The operations any client can run against the Herder store. */
  datatype StoreOp =
    | AddOp(id: string, cwd: string, tty: Option<string>, terminalPid: Option<string>,
            terminalApp: Option<string>, now: int)
    | RemoveOp(id: string)
    | EditOp(id: string, e: Edit)
    | SweepOp(now: int)

  function Apply(ss: seq<AgentSession>, op: StoreOp): seq<AgentSession> {
    match op
    case AddOp(id, cwd, tty, pid, app, now) => Added(ss, id, cwd, tty, pid, app, now)
    case RemoveOp(id) => Removed(ss, id)
    case EditOp(id, e) => Edited(ss, id, e)
    case SweepOp(now) => Swept(ss, now)
  }

  function ApplyAll(ss: seq<AgentSession>, ops: seq<StoreOp>): seq<AgentSession>
    decreases |ops|
  {
    if ops == [] then ss else ApplyAll(Apply(ss, ops[0]), ops[1..])
  }

  /** Session ids stay pairwise distinct after any sequence of operations. */
  lemma {:induction false} ApplyAllKeepsUnique(ss: seq<AgentSession>, ops: seq<StoreOp>)
    requires UniqueIds(ss)
    ensures UniqueIds(ApplyAll(ss, ops))
    decreases |ops|
  {
    if ops != [] {
      ApplyKeepsUnique(ss, ops[0]);
      ApplyAllKeepsUnique(Apply(ss, ops[0]), ops[1..]);
    }
  }

  /** Each single operation keeps session ids pairwise distinct. */
  lemma ApplyKeepsUnique(ss: seq<AgentSession>, op: StoreOp)
    requires UniqueIds(ss)
    ensures UniqueIds(Apply(ss, op))
  {
    match op {
      case AddOp(id, cwd, tty, pid, app, now) => AddedSpec(ss, id, cwd, tty, pid, app, now);
      case RemoveOp(id) => RemovedSpec(ss, id);
      case EditOp(id, e) => EditedSpec(ss, id, e);
      case SweepOp(now) => SweptSpec(ss, now);
    }
  }
}
