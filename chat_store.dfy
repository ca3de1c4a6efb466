/** The session store: chat sessions kept in an in-memory cache under their ids, each entry with
    a two-hour sliding expiration. The clock is a parameter (`now`, in seconds) and the new
    session id, a GUID in the application, is a parameter that must not be in use yet. */
module ChatStore {

  /** A point in time, in whole seconds. */
  type Time = int

  /** `TimeSpan.FromHours(2)`. */
  const SessionTimeout: int := 2 * 60 * 60

  datatype Role = User | Assistant

  /** A chat message: the role (`"user"` or `"assistant"`), the text and when it was created. */
  datatype ChatMessage = ChatMessage(role: Role, content: string, timestamp: Time)

  /** One chat session: the uploaded PDF's text and name, and the conversation so far. Only the
      history and the last-activity time are ever changed after creation. */
  class ChatSession {
    const SessionId: string
    const PdfContent: string
    const FileName: string
    const CreatedAt: Time
    var History: seq<ChatMessage>
    var LastActivity: Time

    constructor (sessionId: string, pdfContent: string, fileName: string, now: Time)
      ensures SessionId == sessionId && PdfContent == pdfContent && FileName == fileName
      ensures History == [] && CreatedAt == now && LastActivity == now
    {
      SessionId := sessionId;
      PdfContent := pdfContent;
      FileName := fileName;
      CreatedAt := now;
      History := [];
      LastActivity := now;
    }
  }

  /** A cache entry: the stored session and when the entry was last read or written. */
  datatype CacheEntry = CacheEntry(session: ChatSession, lastAccess: Time)

  /** Sliding expiration: an entry not accessed for the whole timeout is gone. */
  predicate Expired(entry: CacheEntry, now: Time) {
    now - entry.lastAccess >= SessionTimeout
  }

  /** `ChatService` over its `IMemoryCache`. */
  class ChatService {
    var cache: map<string, CacheEntry>

    /** Every session is stored under its own id; so distinct ids hold distinct sessions. */
    ghost predicate Valid()
      reads this
    {
      forall id :: id in cache ==> cache[id].session.SessionId == id
    }

    /** An entry the cache still returns. */
    predicate IsLive(id: string, now: Time)
      reads this
    {
      id in cache && !Expired(cache[id], now)
    }

    /** The session object a lookup at `now` would return and may touch. */
    function LiveSession(id: string, now: Time): set<ChatSession>
      reads this
    {
      if IsLive(id, now) then {cache[id].session} else {}
    }

    constructor ()
      ensures cache == map[] && Valid()
    {
      cache := map[];
    }

    /** `IMemoryCache.TryGetValue`: a live entry is returned and its expiration re-armed; an
        expired entry is evicted. */
    method TryGetValue(id: string, now: Time) returns (session: ChatSession?)
      requires Valid()
      modifies this
      ensures Valid()
      ensures old(IsLive(id, now)) ==>
        session == old(cache[id].session) && cache == old(cache)[id := CacheEntry(session, now)]
      ensures !old(IsLive(id, now)) ==> session == null && cache == old(cache) - {id}
    {
      if IsLive(id, now) {
        session := cache[id].session;
        cache := cache[id := CacheEntry(session, now)];
      } else {
        session := null;
        cache := cache - {id};
      }
    }

    /** `CreateSession`: a new session with the given text and name, an empty history and both
        times set to `now`, stored under the fresh id, which is returned. The page count is only
        logged. */
    method CreateSession(pdfContent: string, fileName: string, pageCount: int, guid: string, now: Time)
      returns (sessionId: string)
      requires Valid() && guid !in cache
      modifies this
      ensures Valid()
      ensures sessionId == guid && sessionId !in old(cache) && sessionId in cache
      ensures fresh(cache[sessionId].session)
      ensures cache == old(cache)[sessionId := CacheEntry(cache[sessionId].session, now)]
      ensures var s := cache[sessionId].session;
        && s.SessionId == sessionId && s.PdfContent == pdfContent && s.FileName == fileName
        && s.History == [] && s.CreatedAt == now && s.LastActivity == now
    {
      var session := new ChatSession(guid, pdfContent, fileName, now);
      cache := cache[session.SessionId := CacheEntry(session, now)];
      sessionId := session.SessionId;
    }

    /** `GetSession`: a live session has its last-activity time set to `now` and is returned
        (the same object), its history untouched; otherwise `null`, with only the eviction of an
        expired entry. No other entry changes. */
    method GetSession(id: string, now: Time) returns (session: ChatSession?)
      requires Valid()
      modifies this, LiveSession(id, now)
      ensures Valid()
      ensures old(IsLive(id, now)) ==>
        && session == old(cache[id].session)
        && session.LastActivity == now && session.History == old(session.History)
        && cache == old(cache)[id := CacheEntry(session, now)]
      ensures !old(IsLive(id, now)) ==> session == null && cache == old(cache) - {id}
      ensures forall k :: k in old(cache) && k != id ==> k in cache && cache[k] == old(cache[k])
    {
      session := TryGetValue(id, now);
      if session != null {
        session.LastActivity := now;
      }
    }

    /** `AddMessage`: on a live session, exactly `message` is appended to the history, the
        last-activity time is set to `now` and the entry is stored again; on a missing or expired
        id nothing is appended. No other entry changes. */
    method AddMessage(id: string, message: ChatMessage, now: Time)
      requires Valid()
      modifies this, LiveSession(id, now)
      ensures Valid()
      ensures old(IsLive(id, now)) ==>
        var s := old(cache[id].session);
        && s.History == old(s.History) + [message] && s.LastActivity == now
        && cache == old(cache)[id := CacheEntry(s, now)]
      ensures !old(IsLive(id, now)) ==> cache == old(cache) - {id}
      ensures forall k :: k in old(cache) && k != id ==> k in cache && cache[k] == old(cache[k])
    {
      var session := GetSession(id, now);
      if session != null {
        session.History := session.History + [message];
        session.LastActivity := now;
        cache := cache[id := CacheEntry(session, now)];
      }
    }

    /** `SessionExists`: whether the id is live, re-arming its expiration; no session is
        modified (the frame names none). */
    method SessionExists(id: string, now: Time) returns (present: bool)
      requires Valid()
      modifies this
      ensures Valid()
      ensures present == old(IsLive(id, now))
      ensures present ==> cache == old(cache)[id := CacheEntry(old(cache[id].session), now)]
      ensures !present ==> cache == old(cache) - {id}
    {
      var session := TryGetValue(id, now);
      present := session != null;
    }

    /** `CleanupOldSessions` only logs: it removes nothing and changes nothing. */
    method CleanupOldSessions()
      ensures cache == old(cache)
    {
    }
  }
}
