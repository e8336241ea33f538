/** The in-memory session table of server.js (`sessions`, line 18): login inserts,
    `auth` checks the cookie and fingerprint and slides the expiry, and a periodic
    sweep deletes expired entries. The clock and the random id are parameters. */
module Sessions {
  import opened Strings
  import opened Headers

  /** Thirty minutes in milliseconds: the lifetime given at login and on every
      successful check. */
  const SessionTtl := 30 * 60 * 1000

  /** One entry of the table: the fingerprint it is bound to and its expiry time
      in milliseconds. */
  datatype Session = Session(ip: string, ua: string, expires: int)

  type SessionTable = map<string, Session>

  /** The decision of `auth` (server.js lines 81-90): the cookie yields a sid, the
      sid is in the table, and the stored ip and user agent equal the presented
      ones. The expiry is not consulted. */
  predicate Authenticates(table: SessionTable, h: HeaderMap) {
    match CookieSid(h)
    case None => false
    case Some(sid) => sid in table && table[sid].ip == ClientIp(h) && table[sid].ua == UserAgent(h)
  }

  /** The table after a successful `auth` at time `now`: only the presented
      session's expiry moves, to `now` plus the lifetime. */
  function Refreshed(table: SessionTable, h: HeaderMap, now: int): (t: SessionTable)
    requires Authenticates(table, h)
    ensures t.Keys == table.Keys
  {
    var sid := CookieSid(h).value;
    table[sid := table[sid].(expires := now + SessionTtl)]
  }

  /** The table after a sweep at `now`: the entries whose expiry is not before `now`. */
  function Unexpired(table: SessionTable, now: int): SessionTable {
    map sid | sid in table && table[sid].expires >= now :: table[sid]
  }

  class SessionRegistry {
    var sessions: SessionTable

    constructor ()
      ensures sessions == map[]
    {
      sessions := map[];
    }

    /** The login handler's use of the table (server.js lines 119-123): on an exact
        password match the fresh id `sid` maps to the request's fingerprint and
        `now` plus the lifetime; otherwise nothing changes. An unset configured
        password (`None`) matches a body without a password. */
    method Login(password: Option<string>, configured: Option<string>, h: HeaderMap, sid: string, now: int)
      returns (ok: bool)
      modifies this
      ensures ok <==> password == configured
      ensures ok ==> sessions == old(sessions)[sid := Session(ClientIp(h), UserAgent(h), now + SessionTtl)]
      ensures !ok ==> sessions == old(sessions)
    {
      ok := password == configured;
      if ok {
        sessions := sessions[sid := Session(ClientIp(h), UserAgent(h), now + SessionTtl)];
      }
    }

    /** `auth(req)` at time `now` (server.js lines 81-90). */
    method Auth(h: HeaderMap, now: int) returns (ok: bool)
      modifies this
      ensures ok == Authenticates(old(sessions), h)
      ensures ok ==> sessions == Refreshed(old(sessions), h, now)
      ensures !ok ==> sessions == old(sessions)
    {
      var sid := CookieSid(h);
      if sid.None? || sid.value !in sessions {
        return false;
      }
      var session := sessions[sid.value];
      var ip := ClientIp(h);
      var ua := UserAgent(h);
      if session.ip != ip || session.ua != ua {
        return false;
      }
      sessions := sessions[sid.value := session.(expires := now + SessionTtl)];
      return true;
    }

    /** One run of the cleanup timer (server.js lines 269-274): every entry whose
        expiry is strictly before `now` is deleted, visiting the entries one by one. */
    method Sweep(now: int)
      modifies this
      ensures sessions == Unexpired(old(sessions), now)
    {
      var pending := sessions.Keys;
      while pending != {}
        invariant pending <= sessions.Keys <= old(sessions).Keys
        invariant forall sid :: sid in sessions ==> sessions[sid] == old(sessions)[sid]
        invariant forall sid :: sid in old(sessions) && sid !in pending ==>
                    (sid in sessions <==> old(sessions)[sid].expires >= now)
        decreases pending
      {
        var sid :| sid in pending;
        if sessions[sid].expires < now {
          sessions := sessions - {sid};
        }
        pending := pending - {sid};
      }
    }
  }

  /** A browser sending back the cookie it was given presents that sid. */
  lemma {:induction false} ReturnedCookiePresentsSid(h: HeaderMap, sid: string, rest: string)
    requires sid != "" && ';' !in sid
    requires rest == [] || rest[0] == ';'
    requires "cookie" in h && h["cookie"] == "sid=" + sid + rest
    ensures CookieSid(h) == Some(sid)
  {
    SidRoundTrip(sid, rest);
  }

  /** Right after login, a request presenting the new sid authenticates exactly when
      it comes with the same ip and the same user agent. */
  lemma {:induction false} LoginThenAuthenticates(table: SessionTable, login: HeaderMap, sid: string, now: int, h: HeaderMap)
    requires CookieSid(h) == Some(sid)
    ensures Authenticates(table[sid := Session(ClientIp(login), UserAgent(login), now + SessionTtl)], h)
        <==> ClientIp(h) == ClientIp(login) && UserAgent(h) == UserAgent(login)
  {
  }

  /** Whether `auth` accepts does not depend on any expiry: moving a session's
      expiry, even into the past, leaves the decision unchanged. */
  lemma {:induction false} AuthIgnoresExpiry(table: SessionTable, sid: string, expires: int, h: HeaderMap)
    requires sid in table
    ensures Authenticates(table[sid := table[sid].(expires := expires)], h) == Authenticates(table, h)
  {
  }

  /** A second `auth` right after a successful one accepts again and leaves the
      table as the first left it (the session-check handler calls `auth` twice). */
  lemma {:induction false} RefreshedStable(table: SessionTable, h: HeaderMap, now: int)
    requires Authenticates(table, h)
    ensures Authenticates(Refreshed(table, h, now), h)
    ensures Refreshed(Refreshed(table, h, now), h, now) == Refreshed(table, h, now)
  {
  }

  /** The sweep deletes exactly the entries with `expires < now` and keeps the
      others unchanged, including those that expire exactly at `now`. */
  lemma {:induction false} UnexpiredExactly(table: SessionTable, now: int, sid: string)
    ensures sid in Unexpired(table, now) <==> sid in table && table[sid].expires >= now
    ensures sid in Unexpired(table, now) ==> Unexpired(table, now)[sid] == table[sid]
  {
  }

  /** A session that has expired is gone after a sweep, so it no longer authenticates. */
  lemma {:induction false} SweptSessionFails(table: SessionTable, now: int, h: HeaderMap)
    requires CookieSid(h).Some? && CookieSid(h).value in table
    requires table[CookieSid(h).value].expires < now
    ensures !Authenticates(Unexpired(table, now), h)
  {
  }

  /** Sweeping twice at the same time is sweeping once, and a later sweep subsumes an earlier one. */
  lemma {:induction false} SweepsCompose(table: SessionTable, earlier: int, later: int)
    requires earlier <= later
    ensures Unexpired(Unexpired(table, earlier), later) == Unexpired(table, later)
  {
  }
}
