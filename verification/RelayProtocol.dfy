/** The relay session protocol as steps, cut wherever the source awaits, and what every run of them keeps. */
module RelayProtocol {
  import opened Outcomes

  type Id = string

  datatype Envelope = Envelope(kind: string, id: Id, ok: bool, body: string, message: string)

  datatype Future = Pending | Answered(env: Envelope, from: Id) | Failed | Cancelled

  datatype Outcome =
    | Returned(body: string)          // the desktop's payload
    | DesktopError(message: string)   // ValueError
    | Disconnected                    // RuntimeError
    | TimedOut                        // TimeoutError
    | SendFailed
    | CallerGone
    | NoActiveSession                 // LookupError

  datatype Stage = Sending | Waiting

  datatype Call = Call(user: Id, session: Id, stage: Stage, outcome: Option<Outcome>)

  /** A session object outlives its registration: a call keeps the one it began on. */
  datatype Session = Session(user: Id, pending: set<Id>)

  datatype State = State(sessions: set<Id>, byUser: map<Id, set<Id>>, objects: map<Id, Session>,
                         futures: map<Id, Future>, calls: map<Id, Call>)

  const START := State({}, map[], map[], map[], map[])

  datatype Event =
    | Connect(sid: Id, user: Id)
    | Disconnect(sid: Id)
    | Begin(rid: Id, user: Id, pick: Option<Id>)
    | Sent(rid: Id)
    | SendFails(rid: Id)
    | Respond(sid: Id, env: Envelope)
    | Timeout(rid: Id)
    | Resume(rid: Id)
    | Abandon(rid: Id)

  function SessionsOf(s: State, user: Id): set<Id> {
    if user in s.byUser then s.byUser[user] else {}
  }

  /** The sessions `get_active_session_for_user` may come upon. */
  function Active(s: State, user: Id): set<Id> {
    SessionsOf(s, user) * s.sessions
  }

  predicate Open(s: State, rid: Id) {
    rid in s.calls && s.calls[rid].outcome == None
  }

  /** What can happen next: new ids are fresh, and a call takes its own steps in order. */
  predicate Enabled(s: State, e: Event) {
    match e
    case Connect(sid, _) => sid !in s.objects
    case Disconnect(_) => true
    case Begin(rid, user, pick) =>
      rid !in s.calls && rid !in s.futures &&
      if pick == None then Active(s, user) == {} else pick.value in Active(s, user)
    case Sent(rid) => Open(s, rid) && s.calls[rid].stage == Sending
    case SendFails(rid) => Open(s, rid) && s.calls[rid].stage == Sending
    case Respond(_, _) => true
    case Timeout(rid) => Open(s, rid) && s.calls[rid].stage == Waiting && rid in s.futures && s.futures[rid] == Pending
    case Resume(rid) => Open(s, rid) && s.calls[rid].stage == Waiting && rid in s.futures && s.futures[rid] != Pending
    case Abandon(rid) => Open(s, rid)
  }

  function DropIndex(byUser: map<Id, set<Id>>, user: Id, sid: Id): map<Id, set<Id>> {
    if user !in byUser then byUser
    else
      var rest := byUser[user] - {sid};
      if rest == {} then byUser - {user} else byUser[user := rest]
  }

  function FailAll(futures: map<Id, Future>, rids: set<Id>): map<Id, Future> {
    map r | r in futures :: if r in rids && futures[r] == Pending then Failed else futures[r]
  }

  function FailAs(futures: map<Id, Future>, rid: Id, f: Future): map<Id, Future> {
    if rid in futures && futures[rid] == Pending then futures[rid := f] else futures
  }

  function Accepts(s: State, sid: Id, env: Envelope): bool {
    && env.kind == "mcp_response" && sid in s.sessions && sid in s.objects && env.id != ""
    && env.id in s.objects[sid].pending && env.id in s.futures && s.futures[env.id] == Pending
  }

  /** The `finally`: take the request off the session it began on, whether that is still registered or not. */
  function Unpend(objects: map<Id, Session>, sid: Id, rid: Id): map<Id, Session> {
    if sid in objects then objects[sid := objects[sid].(pending := objects[sid].pending - {rid})] else objects
  }

  function Ended(s: State, rid: Id, o: Outcome): State
    requires rid in s.calls
  {
    s.(objects := Unpend(s.objects, s.calls[rid].session, rid),
       calls := s.calls[rid := s.calls[rid].(outcome := Some(o))])
  }

  function Verdict(f: Future): Outcome {
    match f
    case Answered(env, _) => if env.ok then Returned(env.body) else DesktopError(env.message)
    case Failed => Disconnected
    case _ => TimedOut
  }

  function Step(s: State, e: Event): State
    requires Enabled(s, e)
  {
    match e
    case Connect(sid, user) =>
      s.(sessions := s.sessions + {sid}, objects := s.objects[sid := Session(user, {})],
         byUser := s.byUser[user := SessionsOf(s, user) + {sid}])
    case Disconnect(sid) =>
      if sid !in s.sessions || sid !in s.objects then s
      else
        var o := s.objects[sid];
        s.(sessions := s.sessions - {sid}, futures := FailAll(s.futures, o.pending),
           objects := s.objects[sid := o.(pending := {})], byUser := DropIndex(s.byUser, o.user, sid))
    case Begin(rid, user, pick) =>
      if pick == None || pick.value !in s.objects then
        s.(calls := s.calls[rid := Call(user, "", Sending, Some(NoActiveSession))])
      else
        var o := s.objects[pick.value];
        s.(objects := s.objects[pick.value := o.(pending := o.pending + {rid})],
           futures := s.futures[rid := Pending], calls := s.calls[rid := Call(user, pick.value, Sending, None)])
    case Sent(rid) => s.(calls := s.calls[rid := s.calls[rid].(stage := Waiting)])
    case SendFails(rid) => Ended(s, rid, SendFailed)
    case Respond(sid, env) =>
      if Accepts(s, sid, env) then s.(futures := s.futures[env.id := Answered(env, sid)]) else s
    case Timeout(rid) => s.(futures := s.futures[rid := Cancelled])
    case Resume(rid) => Ended(s, rid, Verdict(s.futures[rid]))
    case Abandon(rid) =>
      var t := if s.calls[rid].stage == Waiting then s.(futures := FailAs(s.futures, rid, Cancelled)) else s;
      Ended(t, rid, CallerGone)
  }

  // ---- what every step keeps ----

  /** The two session indexes are exact inverses, and no user is left with an empty set. */
  ghost predicate Indexed(s: State) {
    && s.sessions <= s.objects.Keys
    && (forall user, sid :: sid in SessionsOf(s, user) <==> sid in s.sessions && s.objects[sid].user == user)
    && (forall user :: user in s.byUser ==> s.byUser[user] != {})
  }

  ghost predicate PendingAt(s: State, sid: Id, rid: Id) {
    sid in s.objects && rid in s.objects[sid].pending
  }

  /** Requests are pending only on live sessions, each for the call that made it. */
  ghost predicate PendingLive(s: State) {
    forall sid, rid :: PendingAt(s, sid, rid) ==>
      sid in s.sessions && Open(s, rid) && s.calls[rid].session == sid
  }

  /** An open call began on a session of its own user, and waits there or has been settled. */
  ghost predicate CallsHeld(s: State) {
    forall rid :: Open(s, rid) ==>
      && rid in s.futures && s.calls[rid].session in s.objects
      && (s.futures[rid] == Pending ==> rid in s.objects[s.calls[rid].session].pending)
  }

  /** A request's future belongs to a call that began on a session of its user, and only that session answers it,
      under that id. */
  ghost predicate FutureAddressed(s: State, rid: Id) {
    rid in s.futures ==>
      && rid in s.calls && s.calls[rid].session in s.objects
      && s.objects[s.calls[rid].session].user == s.calls[rid].user
      && (s.futures[rid].Answered? ==> s.futures[rid].env.id == rid && s.futures[rid].from == s.calls[rid].session)
  }

  /** What a finished call reports is what its future came to. */
  predicate Reports(o: Outcome, f: Option<Future>) {
    match o
    case Returned(body) => f.Some? && f.value.Answered? && f.value.env.ok && body == f.value.env.body
    case DesktopError(m) => f.Some? && f.value.Answered? && !f.value.env.ok && m == f.value.env.message
    case Disconnected => f == Some(Failed)
    case TimedOut => f == Some(Cancelled)
    case _ => true
  }

  function FutureOf(s: State, rid: Id): Option<Future> {
    if rid in s.futures then Some(s.futures[rid]) else None
  }

  ghost predicate OutcomeAddressed(s: State, rid: Id) {
    rid in s.calls && s.calls[rid].outcome.Some? ==> Reports(s.calls[rid].outcome.value, FutureOf(s, rid))
  }

  ghost predicate Addressed(s: State) {
    forall rid :: FutureAddressed(s, rid) && OutcomeAddressed(s, rid)
  }

  ghost predicate Inv(s: State) {
    Indexed(s) && PendingLive(s) && CallsHeld(s) && Addressed(s)
  }

  lemma StartInv()
    ensures Inv(START)
  {
  }

  /** A step that leaves both indexes alone, and every object with its user, keeps them inverse. */
  lemma SameIndexes(s: State, t: State)
    requires Indexed(s) && t.sessions == s.sessions && t.byUser == s.byUser && s.objects.Keys <= t.objects.Keys
    requires forall sid :: sid in s.objects ==> t.objects[sid].user == s.objects[sid].user
    ensures Indexed(t)
  {
    forall user, sid
      ensures sid in SessionsOf(t, user) <==> sid in t.sessions && t.objects[sid].user == user
    {
      assert sid in SessionsOf(s, user) <==> sid in s.sessions && s.objects[sid].user == user;
    }
  }

  lemma ConnectIndexed(s: State, sid: Id, user: Id)
    requires Indexed(s) && sid !in s.objects
    ensures Indexed(Step(s, Connect(sid, user)))
  {
    var t := Step(s, Connect(sid, user));
    forall u, k
      ensures k in SessionsOf(t, u) <==> k in t.sessions && t.objects[k].user == u
    {
      assert k in SessionsOf(s, u) <==> k in s.sessions && s.objects[k].user == u;
    }
  }

  lemma DisconnectIndexed(s: State, sid: Id)
    requires Indexed(s)
    ensures Indexed(Step(s, Disconnect(sid)))
  {
    var t := Step(s, Disconnect(sid));
    if sid in s.sessions {
      var user := s.objects[sid].user;
      assert sid in SessionsOf(s, user);
      forall u, k
        ensures k in SessionsOf(t, u) <==> k in t.sessions && t.objects[k].user == u
      {
        assert k in SessionsOf(s, u) <==> k in s.sessions && s.objects[k].user == u;
        assert sid in SessionsOf(s, u) <==> s.objects[sid].user == u;
        assert SessionsOf(t, u) == SessionsOf(s, u) - {sid};
      }
    }
  }

  lemma IndexedKept(s: State, e: Event)
    requires Inv(s) && Enabled(s, e)
    ensures Indexed(Step(s, e))
  {
    match e {
      case Connect(sid, user) => ConnectIndexed(s, sid, user);
      case Disconnect(sid) => DisconnectIndexed(s, sid);
      case _ => SameIndexes(s, Step(s, e));
    }
  }

  lemma WhatIsPending(s: State, sid: Id, rid: Id)
    requires PendingLive(s) && PendingAt(s, sid, rid)
    ensures sid in s.sessions && Open(s, rid) && s.calls[rid].session == sid
  {
  }

  /** A step that adds nothing pending, ends no call and drops no session. */
  lemma PendingFewer(s: State, t: State)
    requires PendingLive(s) && s.sessions <= t.sessions
    requires forall sid, rid :: PendingAt(t, sid, rid) ==> PendingAt(s, sid, rid)
    requires forall rid :: Open(s, rid) ==> Open(t, rid) && t.calls[rid].session == s.calls[rid].session
    ensures PendingLive(t)
  {
    forall sid, rid | PendingAt(t, sid, rid)
      ensures sid in t.sessions && Open(t, rid) && t.calls[rid].session == sid
    {
      WhatIsPending(s, sid, rid);
    }
  }

  lemma ConnectPending(s: State, sid: Id, user: Id)
    requires PendingLive(s) && sid !in s.objects
    ensures PendingLive(Step(s, Connect(sid, user)))
  {
    PendingFewer(s, Step(s, Connect(sid, user)));
  }

  lemma DisconnectPending(s: State, sid: Id)
    requires PendingLive(s)
    ensures PendingLive(Step(s, Disconnect(sid)))
  {
    var t := Step(s, Disconnect(sid));
    forall k, rid | PendingAt(t, k, rid)
      ensures k in t.sessions && Open(t, rid) && t.calls[rid].session == k
    {
      WhatIsPending(s, k, rid);
    }
  }

  lemma BeginPending(s: State, rid: Id, user: Id, pick: Option<Id>)
    requires PendingLive(s) && Enabled(s, Begin(rid, user, pick))
    ensures PendingLive(Step(s, Begin(rid, user, pick)))
  {
    var t := Step(s, Begin(rid, user, pick));
    forall sid, r | PendingAt(t, sid, r)
      ensures sid in t.sessions && Open(t, r) && t.calls[r].session == sid
    {
      if PendingAt(s, sid, r) {
        WhatIsPending(s, sid, r);
      }
    }
  }

  /** Ending a call takes its request off the session it began on, the only one it is pending on. */
  lemma EndedPending(s: State, rid: Id, o: Outcome)
    requires PendingLive(s) && Open(s, rid)
    ensures PendingLive(Ended(s, rid, o))
  {
    var t := Ended(s, rid, o);
    forall sid, r | PendingAt(t, sid, r)
      ensures sid in t.sessions && Open(t, r) && t.calls[r].session == sid
    {
      WhatIsPending(s, sid, r);
    }
  }

  lemma PendingKept(s: State, e: Event)
    requires Inv(s) && Enabled(s, e)
    ensures PendingLive(Step(s, e))
  {
    match e {
      case Connect(sid, user) => ConnectPending(s, sid, user);
      case Disconnect(sid) => DisconnectPending(s, sid);
      case Begin(rid, user, pick) => BeginPending(s, rid, user, pick);
      case SendFails(rid) => EndedPending(s, rid, SendFailed);
      case Resume(rid) => EndedPending(s, rid, Verdict(s.futures[rid]));
      case Abandon(rid) =>
        var t := if s.calls[rid].stage == Waiting then s.(futures := FailAs(s.futures, rid, Cancelled)) else s;
        PendingFewer(s, t);
        EndedPending(t, rid, CallerGone);
      case _ => PendingFewer(s, Step(s, e));
    }
  }

  lemma CallsKept(s: State, e: Event)
    requires Inv(s) && Enabled(s, e)
    ensures CallsHeld(Step(s, e))
  {
    var t := Step(s, e);
    forall rid | Open(t, rid)
      ensures rid in t.futures && t.calls[rid].session in t.objects
      ensures t.futures[rid] == Pending ==> rid in t.objects[t.calls[rid].session].pending
    {
      if Open(s, rid) {
        assert rid in s.futures && s.calls[rid].session in s.objects;
      }
    }
  }

  lemma FutureAddressedKept(s: State, e: Event, rid: Id)
    requires Inv(s) && Enabled(s, e)
    ensures FutureAddressed(Step(s, e), rid)
  {
    assert FutureAddressed(s, rid);
    match e {
      case Respond(sid, env) =>
        if Accepts(s, sid, env) {
          assert s.calls[env.id].session == sid;
        }
      case Begin(r, user, pick) =>
        if pick.Some? {
          assert pick.value in SessionsOf(s, user);
        }
      case _ =>
    }
  }

  /** A settled future and a finished call stay as they are. */
  lemma Settled(s: State, e: Event, rid: Id)
    requires Inv(s) && Enabled(s, e)
    ensures rid in s.futures && s.futures[rid] != Pending ==> FutureOf(Step(s, e), rid) == FutureOf(s, rid)
    ensures rid in s.calls && s.calls[rid].outcome.Some? ==>
            rid in Step(s, e).calls && Step(s, e).calls[rid] == s.calls[rid]
  {
  }

  lemma OutcomeAddressedKept(s: State, e: Event, rid: Id)
    requires Inv(s) && Enabled(s, e)
    ensures OutcomeAddressed(Step(s, e), rid)
  {
    assert OutcomeAddressed(s, rid);
    Settled(s, e, rid);
  }

  lemma AddressedKept(s: State, e: Event)
    requires Inv(s) && Enabled(s, e)
    ensures Addressed(Step(s, e))
  {
    forall rid
      ensures FutureAddressed(Step(s, e), rid) && OutcomeAddressed(Step(s, e), rid)
    {
      FutureAddressedKept(s, e, rid);
      OutcomeAddressedKept(s, e, rid);
    }
  }

  lemma InvKept(s: State, e: Event)
    requires Inv(s) && Enabled(s, e)
    ensures Inv(Step(s, e))
  {
    IndexedKept(s, e);
    PendingKept(s, e);
    CallsKept(s, e);
    AddressedKept(s, e);
  }

  // ---- whole runs ----

  ghost predicate Runs(s: State, events: seq<Event>, t: State)
    decreases |events|
  {
    if events == [] then s == t else Enabled(s, events[0]) && Runs(Step(s, events[0]), events[1..], t)
  }

  /** Where every object and every answer came from. */
  ghost predicate Explained(s: State, past: seq<Event>) {
    && (forall sid :: sid in s.objects ==> Connect(sid, s.objects[sid].user) in past)
    && (forall rid :: rid in s.futures && s.futures[rid].Answered? ==>
          Respond(s.futures[rid].from, s.futures[rid].env) in past)
  }

  lemma ExplainedKept(s: State, past: seq<Event>, e: Event)
    requires Inv(s) && Enabled(s, e) && Explained(s, past)
    ensures Explained(Step(s, e), past + [e])
  {
    var t := Step(s, e);
    forall sid | sid in t.objects
      ensures Connect(sid, t.objects[sid].user) in past + [e]
    {
      if sid in s.objects {
        assert Connect(sid, s.objects[sid].user) in past;
      } else {
        assert (past + [e])[|past|] == e;
      }
    }
    forall rid | rid in t.futures && t.futures[rid].Answered?
      ensures Respond(t.futures[rid].from, t.futures[rid].env) in past + [e]
    {
      if rid in s.futures && s.futures[rid].Answered? {
        Settled(s, e, rid);
        assert Respond(s.futures[rid].from, s.futures[rid].env) in past;
      } else {
        assert (past + [e])[|past|] == e;
      }
    }
  }

  lemma {:induction false} RunKeeps(s: State, past: seq<Event>, events: seq<Event>, t: State)
    requires Inv(s) && Explained(s, past) && Runs(s, events, t)
    ensures Inv(t) && Explained(t, past + events)
    decreases |events|
  {
    if events == [] {
      assert past + events == past;
    } else {
      InvKept(s, events[0]);
      ExplainedKept(s, past, events[0]);
      RunKeeps(Step(s, events[0]), past + [events[0]], events[1..], t);
      assert past + [events[0]] + events[1..] == past + events;
    }
  }

  /** A call gets at most one outcome, a settled future never changes, and a session that is gone stays gone. */
  lemma {:induction false} RunSettles(s: State, events: seq<Event>, t: State, id: Id)
    requires Inv(s) && Runs(s, events, t)
    ensures id in s.calls && s.calls[id].outcome.Some? ==> id in t.calls && t.calls[id] == s.calls[id]
    ensures id in s.futures && s.futures[id] != Pending ==> FutureOf(t, id) == FutureOf(s, id)
    ensures id in s.objects && id !in s.sessions ==> id in t.objects && id !in t.sessions
    decreases |events|
  {
    if events != [] {
      InvKept(s, events[0]);
      Settled(s, events[0], id);
      RunSettles(Step(s, events[0]), events[1..], t, id);
    }
  }

  /**
   * Safety over all interleavings. A response that reaches a caller was sent, under that request's id, by the
   * session the request began on, which the same user connected; and on a session that is gone no caller is left
   * waiting for an answer.
   */
  lemma Safety(events: seq<Event>, t: State, rid: Id)
    requires Runs(START, events, t)
    ensures Indexed(t) && PendingLive(t)
    ensures rid in t.calls && t.calls[rid].outcome.Some? && t.calls[rid].outcome.value.Returned? ==>
              && Connect(t.calls[rid].session, t.calls[rid].user) in events
              && exists env :: Respond(t.calls[rid].session, env) in events
                   && env.id == rid && env.ok && t.calls[rid].outcome == Some(Returned(env.body))
    ensures Open(t, rid) && t.calls[rid].session !in t.sessions ==> rid in t.futures && t.futures[rid] != Pending
  {
    StartInv();
    RunKeeps(START, [], events, t);
    assert [] + events == events;
    assert FutureAddressed(t, rid) && OutcomeAddressed(t, rid);
    if rid in t.calls && t.calls[rid].outcome.Some? && t.calls[rid].outcome.value.Returned? {
      var f := t.futures[rid];
      assert Connect(f.from, t.calls[rid].user) in events && Respond(f.from, f.env) in events;
    }
  }

  /** A disconnect settles every request waiting on that session, and a caller that resumes is told so. */
  lemma DisconnectFails(s: State, sid: Id, rid: Id)
    requires Inv(s) && sid in s.sessions && Open(s, rid) && s.calls[rid].session == sid
    requires rid in s.futures && s.futures[rid] == Pending
    ensures var t := Step(s, Disconnect(sid));
            && Open(t, rid) && FutureOf(t, rid) == Some(Failed)
            && (t.calls[rid].stage == Waiting ==>
                  Enabled(t, Resume(rid)) && Step(t, Resume(rid)).calls[rid].outcome == Some(Disconnected))
  {
  }

  // ---- delivery ----

  /** Request `rid` waits for an answer from session `sid`, which is live. */
  predicate Awaits(s: State, sid: Id, rid: Id) {
    sid in s.sessions && Open(s, rid) && s.calls[rid].session == sid && FutureOf(s, rid) == Some(Pending)
  }

  lemma AwaitsIsPending(s: State, sid: Id, rid: Id)
    requires Inv(s)
    ensures Awaits(s, sid, rid) <==> PendingAt(s, sid, rid) && FutureOf(s, rid) == Some(Pending)
  {
    if PendingAt(s, sid, rid) {
      WhatIsPending(s, sid, rid);
    }
  }

  /** A response settles the request it names exactly when that request awaits an answer from the session it came
      on; no other future is touched, and no other envelope touches any. */
  lemma RespondExactly(s: State, sid: Id, env: Envelope, rid: Id)
    requires Inv(s)
    ensures FutureOf(Step(s, Respond(sid, env)), rid) ==
              if env.kind == "mcp_response" && env.id != "" && env.id == rid && Awaits(s, sid, rid)
              then Some(Answered(env, sid)) else FutureOf(s, rid)
    ensures Step(s, Respond(sid, env)).calls == s.calls
  {
    AwaitsIsPending(s, sid, env.id);
  }

  /** A waiting caller is told what its future came to, and is let go on at the latest by its time running out. */
  lemma CallerIsTold(s: State, rid: Id)
    requires Inv(s) && Open(s, rid) && s.calls[rid].stage == Waiting
    ensures rid in s.futures
    ensures if s.futures[rid] == Pending then
              Enabled(s, Timeout(rid)) && FutureOf(Step(s, Timeout(rid)), rid) == Some(Cancelled)
            else
              Enabled(s, Resume(rid)) &&
              var o := Step(s, Resume(rid)).calls[rid].outcome;
              match s.futures[rid]
              case Answered(env, _) => o == Some(if env.ok then Returned(env.body) else DesktopError(env.message))
              case Failed => o == Some(Disconnected)
              case _ => o == Some(TimedOut)
  {
  }

  /** However a call ends, it is told why and its request is no longer pending anywhere. */
  lemma EndsClean(s: State, e: Event, rid: Id, sid: Id)
    requires Inv(s) && Open(s, rid) && Enabled(s, e)
    requires e == SendFails(rid) || e == Abandon(rid) || e == Resume(rid)
    ensures var t := Step(s, e);
            && rid in t.calls && !PendingAt(t, sid, rid) && t.calls[rid].outcome.Some?
            && (e.SendFails? <==> t.calls[rid].outcome == Some(SendFailed))
            && (e.Abandon? <==> t.calls[rid].outcome == Some(CallerGone))
  {
    InvKept(s, e);
    if PendingAt(Step(s, e), sid, rid) {
      WhatIsPending(Step(s, e), sid, rid);
    }
  }

  /** Once a waiting request is answered, then whatever happens, short of the caller itself going away, the caller is
      told that answer and nothing else. */
  lemma {:induction false} AnswerIsFinal(s: State, events: seq<Event>, t: State, rid: Id)
    requires Inv(s) && Runs(s, events, t) && Abandon(rid) !in events
    requires rid in s.calls && s.calls[rid].stage == Waiting && rid in s.futures && s.futures[rid].Answered?
    requires s.calls[rid].outcome == None || s.calls[rid].outcome == Some(Verdict(s.futures[rid]))
    ensures rid in t.calls && FutureOf(t, rid) == FutureOf(s, rid) && t.calls[rid].stage == Waiting
    ensures t.calls[rid].outcome == None || t.calls[rid].outcome == Some(Verdict(s.futures[rid]))
    decreases |events|
  {
    if events != [] {
      var e := events[0];
      InvKept(s, e);
      Settled(s, e, rid);
      AnswerKept(s, e, rid);
      AnswerIsFinal(Step(s, e), events[1..], t, rid);
    }
  }

  lemma AnswerKept(s: State, e: Event, rid: Id)
    requires Inv(s) && Enabled(s, e) && e != Abandon(rid)
    requires rid in s.calls && s.calls[rid].stage == Waiting && rid in s.futures && s.futures[rid].Answered?
    requires s.calls[rid].outcome == None || s.calls[rid].outcome == Some(Verdict(s.futures[rid]))
    ensures var t := Step(s, e);
            && rid in t.calls && t.calls[rid].stage == Waiting
            && (t.calls[rid].outcome == None || t.calls[rid].outcome == Some(Verdict(s.futures[rid])))
  {
  }

  /** A round trip: from any state a fresh request can be forwarded on any live session of its user and answered, and
      the caller gets the body sent, or the desktop's error. */
  lemma RoundTrip(s: State, rid: Id, user: Id, sid: Id, env: Envelope)
    requires Inv(s) && sid in s.sessions && s.objects[sid].user == user
    requires rid !in s.calls && rid !in s.futures
    requires env.kind == "mcp_response" && env.id == rid && rid != ""
    ensures exists t :: Runs(s, [Begin(rid, user, Some(sid)), Sent(rid), Respond(sid, env), Resume(rid)], t) &&
              rid in t.calls && t.calls[rid].outcome ==
                Some(if env.ok then Returned(env.body) else DesktopError(env.message))
  {
    var s2 := Forwarded(s, rid, user, sid);
    var s3 := Step(s2, Respond(sid, env));
    RespondExactly(s2, sid, env, rid);
    InvKept(s2, Respond(sid, env));
    CallerIsTold(s3, rid);
    var s4 := Step(s3, Resume(rid));
    RunCons(s3, Resume(rid), [], s4);
    RunCons(s2, Respond(sid, env), [Resume(rid)], s4);
    RunCons(Step(s, Begin(rid, user, Some(sid))), Sent(rid), [Respond(sid, env), Resume(rid)], s4);
    RunCons(s, Begin(rid, user, Some(sid)), [Sent(rid), Respond(sid, env), Resume(rid)], s4);
  }

  lemma RunCons(s: State, e: Event, rest: seq<Event>, t: State)
    requires Enabled(s, e) && (rest == [] ==> t == Step(s, e)) && (rest != [] ==> Runs(Step(s, e), rest, t))
    ensures Runs(s, [e] + rest, t)
  {
    assert ([e] + rest)[1..] == rest;
  }

  /** A request begun and sent awaits its answer. */
  lemma Forwarded(s: State, rid: Id, user: Id, sid: Id) returns (t: State)
    requires Inv(s) && sid in s.sessions && s.objects[sid].user == user && rid !in s.calls && rid !in s.futures
    ensures Enabled(s, Begin(rid, user, Some(sid))) && Enabled(Step(s, Begin(rid, user, Some(sid))), Sent(rid))
    ensures t == Step(Step(s, Begin(rid, user, Some(sid))), Sent(rid))
    ensures Inv(t) && Awaits(t, sid, rid) && t.calls[rid].stage == Waiting
  {
    var b := Begin(rid, user, Some(sid));
    assert sid in SessionsOf(s, user);
    InvKept(s, b);
    InvKept(Step(s, b), Sent(rid));
    t := Step(Step(s, b), Sent(rid));
  }

  /** `LookupError` exactly when the user has no live session. */
  lemma NoSessionExactly(s: State, user: Id)
    requires Inv(s)
    ensures Active(s, user) == {} <==> forall sid :: sid in s.sessions ==> s.objects[sid].user != user
  {
    forall sid
      ensures sid in Active(s, user) <==> sid in s.sessions && s.objects[sid].user == user
    {
      assert sid in SessionsOf(s, user) <==> sid in s.sessions && s.objects[sid].user == user;
    }
  }
}
