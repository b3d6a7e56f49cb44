/** Pairing of session-start and session-end events into completed sessions. The open
    sessions are a map from the composite key `userId + "/" + sessionId` to the start
    timestamp; one event updates the map and may emit one completed Session. */
module StartedSessionsManager {
  import opened SessionTypes

  /** UserSessionEventType: the only two event kinds (1 and 2 in the source); any other
      value would reach the `panic` branch, which this type rules out. */
  datatype EventType = SessionStarted | SessionEnded

  /** The decoded body of an event. */
  datatype EventData = EventData(userId: string, sessionId: string, timestamp: int)

  datatype Event = Event(eventType: EventType, data: EventData)

  datatype Option<T> = None | Some(value: T)

  /** The open sessions after one event, and the completed session it emits, if any. */
  datatype StepResult = StepResult(started: map<string, int>, emitted: Option<Session>)

  /** The key of an open session. */
  function GlobalSessionId(userId: string, sessionId: string): string {
    userId + "/" + sessionId
  }

  /** One event: a start records (or overwrites) the start time; an end looks the start
      up, emits a session when the duration is positive, and forgets the key either way. */
  function Step(started: map<string, int>, event: Event): StepResult {
    var key := GlobalSessionId(event.data.userId, event.data.sessionId);
    match event.eventType
    case SessionStarted =>
      StepResult(started[key := event.data.timestamp], None)
    case SessionEnded =>
      var emitted :=
        if key in started && event.data.timestamp - started[key] > 0
        then Some(Session(event.data.userId, event.data.timestamp, event.data.timestamp - started[key]))
        else None;
      StepResult(started - {key}, emitted)
  }

  /** The goroutine's state: the map of open sessions, updated in place by each event. */
  class StartedSessions {
    var startedSessions: map<string, int>

    constructor ()
      ensures startedSessions == map[]
    {
      startedSessions := map[];
    }

    /** The body of the event loop for one event; the session it would send on the
        channel is returned instead. */
    method HandleEvent(event: Event) returns (emitted: Option<Session>)
      modifies this
      ensures StepResult(startedSessions, emitted) == Step(old(startedSessions), event)
    {
      var globalSessionId := GlobalSessionId(event.data.userId, event.data.sessionId);
      emitted := None;
      match event.eventType
      case SessionStarted =>
        startedSessions := startedSessions[globalSessionId := event.data.timestamp];
      case SessionEnded =>
        if globalSessionId in startedSessions {
          var startTimestamp := startedSessions[globalSessionId];
          var endTimestamp := event.data.timestamp;
          var duration := endTimestamp - startTimestamp;
          if duration > 0 {
            emitted := Some(Session(event.data.userId, endTimestamp, duration));
          }
        }
        startedSessions := startedSessions - {globalSessionId};
    }
  }

  /** A start event stores its timestamp under its key, replacing an earlier start, leaves
      every other key as it was, and emits nothing. */
  lemma StartOverwrites(started: map<string, int>, event: Event)
    requires event.eventType == SessionStarted
    ensures var key, r := GlobalSessionId(event.data.userId, event.data.sessionId), Step(started, event);
      && r.emitted == None
      && key in r.started && r.started[key] == event.data.timestamp
      && r.started.Keys == started.Keys + {key}
      && forall k | k in started && k != key :: r.started[k] == started[k]
  {
  }

  /** After an end event, matched or not, its key is gone and all other keys keep their
      start times. */
  lemma EndForgetsKey(started: map<string, int>, event: Event)
    requires event.eventType == SessionEnded
    ensures var key, r := GlobalSessionId(event.data.userId, event.data.sessionId), Step(started, event);
      && key !in r.started
      && r.started.Keys == started.Keys - {key}
      && forall k | k in r.started :: r.started[k] == started[k]
  {
  }

  /** An end event emits exactly when a start is stored under its key and the end comes
      strictly after it; the emitted session carries the user, the end time and the
      difference as its duration. */
  lemma EndEmitsIffMatched(started: map<string, int>, event: Event)
    requires event.eventType == SessionEnded
    ensures var key, r := GlobalSessionId(event.data.userId, event.data.sessionId), Step(started, event);
      && (r.emitted.Some? <==> key in started && event.data.timestamp - started[key] > 0)
      && (r.emitted.Some? ==>
            r.emitted.value == Session(event.data.userId, event.data.timestamp, event.data.timestamp - started[key]))
  {
  }

  /** Every emitted session has a positive duration, which is what the registrar relies
      on, belongs to the event's user and ends at the event's time. */
  lemma EmittedSessionIsPositive(started: map<string, int>, event: Event)
    ensures var r := Step(started, event);
      r.emitted.Some? ==>
        && r.emitted.value.duration > 0
        && r.emitted.value.userId == event.data.userId
        && r.emitted.value.endTimestamp == event.data.timestamp
  {
  }

  /** The composite key tells apart sessions of different users, or different sessions of
      one user, as long as no user id contains '/' (session ids may). */
  lemma {:induction false} GlobalSessionIdInjective(u1: string, s1: string, u2: string, s2: string)
    requires '/' !in u1 && '/' !in u2
    requires GlobalSessionId(u1, s1) == GlobalSessionId(u2, s2)
    ensures u1 == u2 && s1 == s2
  {
    SlashPosition(u1, s1);
    SlashPosition(u2, s2);
    var key := GlobalSessionId(u1, s1);
    assert |u1| == |u2|;
    assert u1 == key[..|u1|] == u2;
    assert s1 == key[|u1| + 1..] == s2;
  }

  /** In a key whose user id has no '/', the first '/' is the separator. */
  lemma SlashPosition(u: string, s: string)
    requires '/' !in u
    ensures var key := GlobalSessionId(u, s);
      key[|u|] == '/' && forall i | 0 <= i < |u| :: key[i] != '/'
  {
    var key := GlobalSessionId(u, s);
    assert forall i | 0 <= i < |u| :: key[i] == u[i];
  }

  /** Without that assumption two different sessions can share a key. */
  lemma GlobalSessionIdCollision()
    ensures GlobalSessionId("a/b", "c") == GlobalSessionId("a", "b/c")
  {
  }
}
