/** The relay manager itself: each atomic stretch of its methods takes exactly one protocol step. */
module RelayManagement {
  import opened Outcomes
  import opened RelayProtocol

  class RelayManager {
    var sessions: set<Id>                   // the registered sessions
    var byUser: map<Id, set<Id>>
    var objects: map<Id, Session>           // every session object, registered or not
    var futures: map<Id, Future>
    var calls: map<Id, Call>

    function Abs(): State
      reads this
    {
      State(sessions, byUser, objects, futures, calls)
    }

    constructor ()
      ensures Abs() == START
    {
      sessions, byUser, objects, futures, calls := {}, map[], map[], map[], map[];
    }

    /** After `accept()`: register under a fresh id. */
    method Connect(sid: Id, user: Id)
      requires Enabled(Abs(), Event.Connect(sid, user))
      modifies this
      ensures Abs() == Step(old(Abs()), Event.Connect(sid, user))
    {
      sessions := sessions + {sid};
      objects := objects[sid := Session(user, {})];
      if user !in byUser {
        byUser := byUser[user := {}];
      }
      byUser := byUser[user := byUser[user] + {sid}];
    }

    /** Every request still waiting fails. */
    method FailPending(pending: set<Id>)
      modifies this`futures
      ensures futures == FailAll(old(futures), pending)
    {
      var todo := pending;
      while todo != {}
        invariant todo <= pending
        invariant futures == FailAll(old(futures), pending - todo)
        decreases todo
      {
        var rid :| rid in todo;
        futures := FailAs(futures, rid, Failed);
        todo := todo - {rid};
      }
      assert pending - todo == pending;
    }

    /**
     * Fail what is waiting, then take the session off its user's set, and the user off the index when that empties
     * it.
     */
    method Disconnect(sid: Id)
      requires Inv(Abs())
      modifies this
      ensures Abs() == Step(old(Abs()), Event.Disconnect(sid))
    {
      if sid !in sessions {
        return;
      }
      sessions := sessions - {sid};
      var session := objects[sid];
      FailPending(session.pending);
      objects := objects[sid := session.(pending := {})];
      if session.user in byUser {
        var rest := byUser[session.user] - {sid};
        byUser := if rest == {} then byUser - {session.user} else byUser[session.user := rest];
      }
    }

    /** The first of the user's sessions that is still registered. */
    method ActiveSession(user: Id) returns (pick: Option<Id>)
      ensures if pick == None then Active(Abs(), user) == {} else pick.value in Active(Abs(), user)
    {
      var ids := if user in byUser then byUser[user] else {};
      var todo := ids;
      while todo != {}
        invariant todo <= ids && ids == SessionsOf(Abs(), user)
        invariant forall sid :: sid in ids - todo ==> sid !in sessions
        decreases todo
      {
        var sid :| sid in todo;
        if sid in sessions {
          return Some(sid);
        }
        todo := todo - {sid};
      }
      return None;
    }

    /** Up to the first await of a forward: find a session, or raise; else file the request on it. */
    method Begin(rid: Id, user: Id) returns (pick: Option<Id>)
      requires Inv(Abs()) && rid !in calls && rid !in futures
      modifies this
      ensures Enabled(old(Abs()), Event.Begin(rid, user, pick))
      ensures Abs() == Step(old(Abs()), Event.Begin(rid, user, pick))
    {
      pick := ActiveSession(user);
      if pick == None {
        calls := calls[rid := Call(user, "", Sending, Some(NoActiveSession))];
        return;
      }
      var session := objects[pick.value];
      futures := futures[rid := Pending];
      objects := objects[pick.value := session.(pending := session.pending + {rid})];
      calls := calls[rid := Call(user, pick.value, Sending, None)];
    }

    /** An inbound envelope settles the request it names, if that request waits on this very session. */
    method HandleResponse(sid: Id, env: Envelope)
      requires Inv(Abs())
      modifies this
      ensures Abs() == Step(old(Abs()), Event.Respond(sid, env))
    {
      if env.kind != "mcp_response" || sid !in sessions || env.id == "" || env.id !in objects[sid].pending {
        return;
      }
      if env.id !in futures || futures[env.id] != Pending {
        return;
      }
      futures := futures[env.id := Answered(env, sid)];
    }

    /** What `finally` and the lines after it do once the wait is over. */
    method Resume(rid: Id) returns (outcome: Outcome)
      requires Enabled(Abs(), Event.Resume(rid))
      modifies this
      ensures Abs() == Step(old(Abs()), Event.Resume(rid)) && calls[rid].outcome == Some(outcome)
    {
      var sid := calls[rid].session;
      if sid in objects {
        objects := objects[sid := objects[sid].(pending := objects[sid].pending - {rid})];
      }
      match futures[rid] {
        case Answered(env, _) =>
          if env.ok {
            outcome := Returned(env.body);
          } else {
            outcome := DesktopError(env.message);
          }
        case Failed => outcome := Disconnected;
        case _ => outcome := TimedOut;
      }
      calls := calls[rid := calls[rid].(outcome := Some(outcome))];
    }
  }
}
