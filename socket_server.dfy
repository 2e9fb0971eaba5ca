/** The Herd app's socket server, from the bytes of one connection to the store call
    they cause. A connection carries one JSON object naming an `event` and a
    `session_id`; the server reads at most 4096 bytes, decodes them, and dispatches on
    the event. The socket calls themselves and the JSON decoder are inputs: the number of
    bytes the read returned and a decoding function. */
module SocketServer {

  import opened Wrappers
  import opened Json
  import opened AgentSessions
  import opened SessionTable
  import HerdStore

  /** Size of the read buffer: the most a connection can deliver. */
  const BufferSize: int := 4096

  /** The store call a message causes. */
  datatype Effect =
    | NoEffect
    | Add(id: string, cwd: string)
    | Remove(id: string)
    | Update(id: string, status: Status, lastMessage: Option<string>)

  /** `processEvent`: a message without a string "session_id" does nothing;
      "session_start" adds the session when "cwd" is a string, "session_end" removes it,
      "agent_idle" marks it idle with "last_message" when that is a string,
      "agent_active" marks it working, and any other event does nothing. */
  function EventEffect(event: string, data: map<string, Value>): Effect {
    match StringField(data, "session_id")
    case None => NoEffect
    case Some(id) =>
      if event == "session_start" then
        match StringField(data, "cwd")
        case Some(cwd) => Add(id, cwd)
        case None => NoEffect
      else if event == "session_end" then Remove(id)
      else if event == "agent_idle" then Update(id, Idle, StringField(data, "last_message"))
      else if event == "agent_active" then Update(id, Working, None)
      else NoEffect
  }

  /** The check in `handleClient` after decoding: the message must be an object with a
      string "event". */
  function MessageEffect(decoded: Option<Value>): Effect {
    if decoded.Some? && decoded.value.Object? then
      match StringField(decoded.value.fields, "event")
      case Some(event) => EventEffect(event, decoded.value.fields)
      case None => NoEffect
    else NoEffect
  }

  /** The Herd store's table after an effect at clock reading `now`. */
  function Applied(ss: seq<AgentSession>, e: Effect, now: int): seq<AgentSession> {
    match e
    case NoEffect => ss
    case Add(id, cwd) => Added(ss, id, cwd, None, None, None, now)
    case Remove(id) => Removed(ss, id)
    case Update(id, st, msg) => Edited(ss, id, SetStatus(st, msg, now))
  }

  /** Messages that change nothing: one that is not an object or has no string "event",
      one without a string "session_id" whatever its event, "session_start" without a
      string "cwd", and an unknown event. */
  lemma IgnoredMessages(decoded: Option<Value>, ss: seq<AgentSession>, now: int)
    ensures (decoded.None? || !decoded.value.Object? || StringField(decoded.value.fields, "event").None?) ==>
      Applied(ss, MessageEffect(decoded), now) == ss
    ensures decoded.Some? && decoded.value.Object? && StringField(decoded.value.fields, "session_id").None? ==>
      Applied(ss, MessageEffect(decoded), now) == ss
    ensures decoded.Some? && decoded.value.Object? ==>
      var data := decoded.value.fields;
      (StringField(data, "event") == Some("session_start") && StringField(data, "cwd").None?) ==>
        Applied(ss, MessageEffect(decoded), now) == ss
    ensures decoded.Some? && decoded.value.Object? ==>
      var data := decoded.value.fields;
      (StringField(data, "event").Some?
       && StringField(data, "event").value !in {"session_start", "session_end", "agent_idle", "agent_active"}) ==>
        Applied(ss, MessageEffect(decoded), now) == ss
  {
  }

  /** "session_start" with a string "cwd" adds a working session for a new id and is a
      no-op for a known one; "session_end" leaves no session with the id and keeps the
      others in order. */
  lemma StartAndEndEvents(data: map<string, Value>, ss: seq<AgentSession>, now: int)
    requires UniqueIds(ss)
    requires StringField(data, "session_id").Some?
    ensures var id := StringField(data, "session_id").value;
      StringField(data, "cwd").Some? ==>
        Applied(ss, EventEffect("session_start", data), now)
          == Added(ss, id, StringField(data, "cwd").value, None, None, None, now)
    ensures var id := StringField(data, "session_id").value;
      var r := Applied(ss, EventEffect("session_end", data), now);
      && (forall i :: 0 <= i < |r| ==> r[i].id != id)
      && (forall s :: s in ss && s.id != id ==> s in r)
      && IsSubsequence(r, ss)
  {
    RemovedSpec(ss, StringField(data, "session_id").value);
  }

  /** "agent_idle" marks the session idle at `now` and takes "last_message" only when it
      is a string; "agent_active" marks it working at `now` and keeps its message. Other
      sessions are untouched. */
  lemma StatusEvents(data: map<string, Value>, ss: seq<AgentSession>, now: int, k: nat)
    requires UniqueIds(ss) && k < |ss|
    requires StringField(data, "session_id") == Some(ss[k].id)
    ensures var r := Applied(ss, EventEffect("agent_idle", data), now);
      && |r| == |ss| && r[k].status == Idle && r[k].lastActivity == now
      && r[k].lastMessage == (if StringField(data, "last_message").Some? then StringField(data, "last_message") else ss[k].lastMessage)
      && (forall j :: 0 <= j < |ss| && j != k ==> r[j] == ss[j])
    ensures var r := Applied(ss, EventEffect("agent_active", data), now);
      && |r| == |ss| && r[k].status == Working && r[k].lastActivity == now
      && r[k].lastMessage == ss[k].lastMessage
      && (forall j :: 0 <= j < |ss| && j != k ==> r[j] == ss[j])
  {
    var id := ss[k].id;
    EditedSpec(ss, id, SetStatus(Idle, StringField(data, "last_message"), now));
    EditedSpec(ss, id, SetStatus(Working, None, now));
    forall j | 0 <= j < |ss| && j != k ensures ss[j].id != id {
    }
  }

  /** "agent_idle" and "agent_active" for an id the table does not track change nothing. */
  lemma StatusEventsUnknownId(data: map<string, Value>, ss: seq<AgentSession>, now: int)
    requires StringField(data, "session_id").Some?
    requires IndexOf(ss, StringField(data, "session_id").value).None?
    ensures Applied(ss, EventEffect("agent_idle", data), now) == ss
    ensures Applied(ss, EventEffect("agent_active", data), now) == ss
  {
  }

  function StartMessage(id: string, cwd: string): Option<Value> {
    Some(Object(map["event" := Str("session_start"), "session_id" := Str(id), "cwd" := Str(cwd)]))
  }

  function IdleMessage(id: string, message: string): Option<Value> {
    Some(Object(map["event" := Str("agent_idle"), "session_id" := Str(id), "last_message" := Str(message)]))
  }

  function EndMessage(id: string): Option<Value> {
    Some(Object(map["event" := Str("session_end"), "session_id" := Str(id)]))
  }

  /** The event round trip: "session_start" creates a working session for a new id at
      the end of the table, "agent_idle" with a message makes it idle with that message,
      and "session_end" removes it, leaving the table as it was before the start. */
  lemma EventRoundTrip(ss: seq<AgentSession>, id: string, cwd: string, message: string, t1: int, t2: int, t3: int)
    requires UniqueIds(ss) && IndexOf(ss, id).None?
    ensures var s1 := Applied(ss, MessageEffect(StartMessage(id, cwd)), t1);
      && |s1| == |ss| + 1 && s1[..|ss|] == ss
      && s1[|ss|] == NewSession(id, cwd, Working, None, None, None, t1)
    ensures var s1 := Applied(ss, MessageEffect(StartMessage(id, cwd)), t1);
      var s2 := Applied(s1, MessageEffect(IdleMessage(id, message)), t2);
      && |s2| == |ss| + 1 && s2[..|ss|] == ss
      && s2[|ss|].status == Idle && s2[|ss|].lastMessage == Some(message) && s2[|ss|].lastActivity == t2
      && s2[|ss|].id == id && s2[|ss|].cwd == cwd && s2[|ss|].startTime == t1
    ensures var s1 := Applied(ss, MessageEffect(StartMessage(id, cwd)), t1);
      var s2 := Applied(s1, MessageEffect(IdleMessage(id, message)), t2);
      Applied(s2, MessageEffect(EndMessage(id)), t3) == ss
  {
    var started := NewSession(id, cwd, Working, None, None, None, t1);
    StartAppends(ss, id, cwd, t1);
    var idle := ApplyEdit(started, SetStatus(Idle, Some(message), t2));
    IdleOnLast(ss, started, message, t2);
    assert (ss + [idle])[..|ss|] == ss;
    EndOfLast(ss, idle);
  }

  lemma StartAppends(ss: seq<AgentSession>, id: string, cwd: string, now: int)
    requires IndexOf(ss, id).None?
    ensures Applied(ss, MessageEffect(StartMessage(id, cwd)), now)
      == ss + [NewSession(id, cwd, Working, None, None, None, now)]
  {
    var data := StartMessage(id, cwd).value.fields;
    assert StringField(data, "event") == Some("session_start");
    assert StringField(data, "session_id") == Some(id);
    assert StringField(data, "cwd") == Some(cwd);
  }

  lemma IdleOnLast(ss: seq<AgentSession>, s: AgentSession, message: string, now: int)
    requires UniqueIds(ss) && IndexOf(ss, s.id).None?
    ensures Applied(ss + [s], MessageEffect(IdleMessage(s.id, message)), now)
      == ss + [ApplyEdit(s, SetStatus(Idle, Some(message), now))]
  {
    var data := IdleMessage(s.id, message).value.fields;
    assert StringField(data, "event") == Some("agent_idle");
    assert StringField(data, "session_id") == Some(s.id);
    assert StringField(data, "last_message") == Some(message);
    assert UniqueIds(ss + [s]) by {
      assert forall i :: 0 <= i < |ss| ==> (ss + [s])[i] == ss[i];
    }
    IndexOfUnique(ss + [s], s.id, |ss|);
  }

  lemma EndOfLast(ss: seq<AgentSession>, s: AgentSession)
    requires IndexOf(ss, s.id).None?
    ensures forall now :: Applied(ss + [s], MessageEffect(EndMessage(s.id)), now) == ss
  {
    var data := EndMessage(s.id).value.fields;
    assert StringField(data, "event") == Some("session_end");
    assert StringField(data, "session_id") == Some(s.id);
    RemovedAppended(ss, s);
  }

  class SocketServer {
    const store: HerdStore.AgentStore

    constructor (store: HerdStore.AgentStore)
      ensures this.store == store
    {
      this.store := store;
    }

    /** `processEvent`: performs the store call of the event. */
    method ProcessEvent(event: string, data: map<string, Value>, now: int)
      requires store.Valid()
      modifies store
      ensures store.Valid()
      ensures store.sessions == Applied(old(store.sessions), EventEffect(event, data), now)
    {
      var sessionId := StringField(data, "session_id");
      if sessionId.None? {
        return;
      }
      var id := sessionId.value;
      if event == "session_start" {
        var cwd := StringField(data, "cwd");
        if cwd.Some? {
          store.AddSession(id, cwd.value, now);
        }
      } else if event == "session_end" {
        store.RemoveSession(id);
      } else if event == "agent_idle" {
        store.UpdateSessionStatus(id, Idle, StringField(data, "last_message"), now);
      } else if event == "agent_active" {
        store.UpdateSessionStatus(id, Working, None, now);
      }
    }

    /** `handleClient` after the read: `incoming` is what the peer sent and `bytesRead`
        what `read` returned, never more than was sent or than the buffer holds. A read
        of no bytes, or an error, processes nothing; otherwise the bytes read are decoded
        and the message dispatched. */
    method HandleClient(incoming: seq<bv8>, bytesRead: int, decode: seq<bv8> -> Option<Value>, now: int)
      requires bytesRead <= |incoming| && bytesRead <= BufferSize
      requires store.Valid()
      modifies store
      ensures store.Valid()
      ensures bytesRead <= 0 ==> store.sessions == old(store.sessions)
      ensures bytesRead > 0 ==>
        store.sessions == Applied(old(store.sessions), MessageEffect(decode(incoming[..bytesRead])), now)
    {
      if bytesRead <= 0 {
        return;
      }
      var data := incoming[..bytesRead];
      var json := decode(data);
      if json.None? || !json.value.Object? {
        return;
      }
      var event := StringField(json.value.fields, "event");
      if event.None? {
        return;
      }
      ProcessEvent(event.value, json.value.fields, now);
    }
  }
}
