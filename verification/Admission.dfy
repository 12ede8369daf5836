/** Who may run inference: one request per session and one per model kind in the
    process, with both gates given back on every path. */
module Admission {

  const INFERENCE := "inference"

  datatype Kind = Chat | Asr | Tts

  function Name(kind: Kind): string
  {
    match kind case Chat => "chat" case Asr => "asr" case Tts => "tts"
  }

  /** A set of names, each held by at most one request. */
  class ActivityGate {
    var names: set<string>

    constructor ()
      ensures names == {}
    {
      names := {};
    }

    method Acquire(name: string) returns (acquired: bool)
      modifies this
      ensures acquired == (name !in old(names))
      ensures names == old(names) + {name}
    {
      acquired := name !in names;
      names := names + {name};
    }

    method Release(name: string)
      modifies this
      ensures names == old(names) - {name}
    {
      names := names - {name};
    }

    predicate Any()
      reads this
    {
      names != {}
    }
  }

  datatype Outcome = Busy | Failed | Succeeded

  /** The common part of `run_chat`, `run_reader_translation`, `run_asr` and
      `run_tts`, run alone: refused exactly when a gate is taken, and whatever
      the work does, both gates end as they were found. */
  method RunInference(backend: ActivityGate, session: ActivityGate, kind: Kind, works: bool) returns (outcome: Outcome)
    requires backend != session
    modifies backend, session
    ensures backend.names == old(backend.names) && session.names == old(session.names)
    ensures outcome.Busy? <==> INFERENCE in old(session.names) || Name(kind) in old(backend.names)
    ensures outcome.Succeeded? ==> works
  {
    ghost var sessionNames, backendNames := session.names, backend.names;
    var admitted := session.Acquire(INFERENCE);
    if !admitted {
      assert sessionNames + {INFERENCE} == sessionNames;
      return Busy;
    }
    var begun := backend.Acquire(Name(kind));
    if !begun {
      assert backendNames + {Name(kind)} == backendNames;
      session.Release(INFERENCE);
      return Busy;
    }
    outcome := if works then Succeeded else Failed;
    backend.Release(Name(kind));
    session.Release(INFERENCE);
  }

  // ------------------------------------------------------- all interleavings

  datatype Recording = NotYet | Live | Over

  /** How far a request has come. It is `Refused` between the backend's refusal
      and giving back the session gate, and `Releasing` between the two halves
      of the lease's destructor. */
  datatype Phase =
    | Submitted
    | SessionHeld
    | Refused
    | Leased(recording: Recording)
    | Releasing
    | Rejected
    | Finished

  datatype Request = Request(session: nat, kind: Kind, phase: Phase)

  predicate HoldsSession(r: Request)
  {
    r.phase.SessionHeld? || r.phase.Refused? || r.phase.Leased? || r.phase.Releasing?
  }

  predicate HoldsBackend(r: Request) { r.phase.Leased? }

  /** The process-wide gate, the sessions whose gate is taken, the request that
      owns each session's recording, and every request made so far. */
  datatype State = State(
    backend: set<Kind>, busy: set<nat>, audio: map<nat, nat>, requests: map<nat, Request>)

  const INITIAL := State({}, {}, map[], map[])

  datatype Event =
    | Submit(id: nat, session: nat, kind: Kind)
    | AcquireSession(id: nat)
    | AcquireBackend(id: nat)
    | GiveBack(id: nat)
    | StartRecording(id: nat)
    | ClearRecording(id: nat)
    | EndBackend(id: nat)
    | EndSession(id: nat)

  function Moved(s: State, id: nat, phase: Phase): State
    requires id in s.requests
  {
    s.(requests := s.requests[id := s.requests[id].(phase := phase)])
  }

  /** One atomic step of one request's thread; the others stand still. */
  function Apply(s: State, e: Event): State
  {
    if e.Submit? then
      if e.id in s.requests then s else s.(requests := s.requests[e.id := Request(e.session, e.kind, Submitted)])
    else if e.id !in s.requests then s
    else
      var r := s.requests[e.id];
      match e
      case AcquireSession(id) =>
        if r.phase != Submitted then s
        else if r.session in s.busy then Moved(s, id, Rejected)
        else Moved(s.(busy := s.busy + {r.session}), id, SessionHeld)
      case AcquireBackend(id) =>
        if r.phase != SessionHeld then s
        else if r.kind in s.backend then Moved(s, id, Refused)
        else Moved(s.(backend := s.backend + {r.kind}), id, Leased(NotYet))
      case GiveBack(id) =>
        if r.phase != Refused then s else Moved(s.(busy := s.busy - {r.session}), id, Rejected)
      case StartRecording(id) =>
        if r.phase != Leased(NotYet) || r.kind != Asr then s
        else Moved(s.(audio := s.audio[r.session := id]), id, Leased(Live))
      case ClearRecording(id) =>
        if r.phase != Leased(Live) then s
        else Moved(if r.session in s.audio && s.audio[r.session] == id then s.(audio := s.audio - {r.session}) else s,
                   id, Leased(Over))
      case EndBackend(id) =>
        if !r.phase.Leased? || r.phase.recording.Live? then s
        else Moved(s.(backend := s.backend - {r.kind}), id, Releasing)
      case EndSession(id) =>
        if r.phase != Releasing then s else Moved(s.(busy := s.busy - {r.session}), id, Finished)
  }

  function Run(events: seq<Event>, n: nat): State
    requires n <= |events|
  {
    if n == 0 then INITIAL else Apply(Run(events, n - 1), events[n - 1])
  }

  ghost predicate Owns(s: State, id: nat, kind: Kind)
  {
    id in s.requests && HoldsBackend(s.requests[id]) && s.requests[id].kind == kind
  }

  ghost predicate Occupies(s: State, id: nat, session: nat)
  {
    id in s.requests && HoldsSession(s.requests[id]) && s.requests[id].session == session
  }

  /** The process-wide gate holds a kind exactly while one leased request of that
      kind exists. */
  ghost predicate BackendInv(s: State)
  {
    && (forall kind :: kind in s.backend <==> exists id :: Owns(s, id, kind))
    && (forall i, j, kind :: Owns(s, i, kind) && Owns(s, j, kind) ==> i == j)
  }

  /** A session's gate is taken exactly while one request of it is under way. */
  ghost predicate SessionInv(s: State)
  {
    && (forall session :: session in s.busy <==> exists id :: Occupies(s, id, session))
    && (forall i, j, session :: Occupies(s, i, session) && Occupies(s, j, session) ==> i == j)
  }

  ghost predicate Records(s: State, session: nat, id: nat)
  {
    && id in s.requests && s.requests[id].phase == Leased(Live)
    && s.requests[id].session == session && s.requests[id].kind == Asr
  }

  /** A recording exists exactly while the request that made it is live. */
  ghost predicate AudioInv(s: State)
  {
    && (forall session :: session in s.audio ==> Records(s, session, s.audio[session]))
    && (forall session, id :: Records(s, session, id) ==> session in s.audio && s.audio[session] == id)
    && (forall id :: id in s.requests && s.requests[id].phase == Leased(Live) ==> s.requests[id].kind == Asr)
  }

  ghost predicate Inv(s: State)
  {
    BackendInv(s) && SessionInv(s) && AudioInv(s)
  }

  lemma MoveEffect(s: State, next: State, id: nat, phase: Phase)
    requires id in s.requests && next.requests == s.requests[id := s.requests[id].(phase := phase)]
    ensures forall j, kind :: Owns(next, j, kind) <==>
              if j == id then phase.Leased? && kind == s.requests[id].kind else Owns(s, j, kind)
    ensures forall j, session :: Occupies(next, j, session) <==>
              if j == id then HoldsSession(next.requests[id]) && session == s.requests[id].session
              else Occupies(s, j, session)
    ensures forall session, j :: Records(next, session, j) <==>
              if j == id then phase == Leased(Live) && session == s.requests[id].session && s.requests[id].kind == Asr
              else Records(s, session, j)
  {
  }

  lemma BackendStep(s: State, e: Event)
    requires BackendInv(s)
    ensures BackendInv(Apply(s, e))
  {
    var next := Apply(s, e);
    if e.Submit? {
      assert forall j, kind :: Owns(next, j, kind) <==> Owns(s, j, kind);
    } else if next != s {
      MoveEffect(s, next, e.id, next.requests[e.id].phase);
      var r := s.requests[e.id];
      assert Owns(s, e.id, r.kind) == HoldsBackend(r);
      forall kind | kind in next.backend
        ensures exists id :: Owns(next, id, kind)
      {
        if kind in s.backend {
          var w :| Owns(s, w, kind);
          assert Owns(next, w, kind);
        } else {
          assert Owns(next, e.id, kind);
        }
      }
      forall id, kind | Owns(next, id, kind)
        ensures kind in next.backend
      {
        assert Owns(s, id, kind) || id == e.id;
      }
    }
  }

  lemma SessionStep(s: State, e: Event)
    requires SessionInv(s)
    ensures SessionInv(Apply(s, e))
  {
    var next := Apply(s, e);
    if e.Submit? {
      assert forall j, session :: Occupies(next, j, session) <==> Occupies(s, j, session);
    } else if next != s {
      MoveEffect(s, next, e.id, next.requests[e.id].phase);
      var r := s.requests[e.id];
      assert Occupies(s, e.id, r.session) == HoldsSession(r);
      forall session | session in next.busy
        ensures exists id :: Occupies(next, id, session)
      {
        if session in s.busy {
          var w :| Occupies(s, w, session);
          assert Occupies(next, w, session);
        } else {
          assert Occupies(next, e.id, session);
        }
      }
      forall id, session | Occupies(next, id, session)
        ensures session in next.busy
      {
        assert Occupies(s, id, session) || id == e.id;
      }
    }
  }

  lemma AudioStep(s: State, e: Event)
    requires AudioInv(s) && SessionInv(s)
    ensures AudioInv(Apply(s, e))
  {
    var next := Apply(s, e);
    if e.Submit? {
      assert forall session, j :: Records(next, session, j) <==> Records(s, session, j);
    } else if next != s {
      MoveEffect(s, next, e.id, next.requests[e.id].phase);
      if e.StartRecording? {
        assert Occupies(s, e.id, s.requests[e.id].session);
        assert forall j :: Records(s, s.requests[e.id].session, j) ==> Occupies(s, j, s.requests[e.id].session);
      }
    }
  }

  lemma {:induction false} RunKeepsInv(events: seq<Event>, n: nat)
    requires n <= |events|
    ensures Inv(Run(events, n))
  {
    if n > 0 {
      hide Apply, BackendInv, SessionInv, AudioInv;
      RunKeepsInv(events, n - 1);
      BackendStep(Run(events, n - 1), events[n - 1]);
      SessionStep(Run(events, n - 1), events[n - 1]);
      AudioStep(Run(events, n - 1), events[n - 1]);
    }
  }

  /** In every interleaving of any number of sessions and requests: at most one
      request per kind works, and at most one request per session is admitted. */
  lemma MutualExclusion(events: seq<Event>, n: nat, i: nat, j: nat)
    requires n <= |events|
    requires i in Run(events, n).requests && j in Run(events, n).requests && i != j
    ensures var s := Run(events, n);
      && (HoldsBackend(s.requests[i]) && HoldsBackend(s.requests[j]) ==> s.requests[i].kind != s.requests[j].kind)
      && (HoldsSession(s.requests[i]) && HoldsSession(s.requests[j]) ==> s.requests[i].session != s.requests[j].session)
  {
    RunKeepsInv(events, n);
    hide Run;
    var s := Run(events, n);
    assert Owns(s, i, s.requests[i].kind) == HoldsBackend(s.requests[i]);
    assert Owns(s, j, s.requests[j].kind) == HoldsBackend(s.requests[j]);
    assert Occupies(s, i, s.requests[i].session) == HoldsSession(s.requests[i]);
    assert Occupies(s, j, s.requests[j].session) == HoldsSession(s.requests[j]);
  }

  /** A request is turned away exactly when another one holds what it needs. */
  lemma TurnedAwayIff(events: seq<Event>, n: nat, id: nat)
    requires n <= |events| && id in Run(events, n).requests
    ensures var s := Run(events, n); var r := s.requests[id];
      && (r.phase.Submitted? ==>
            (Apply(s, AcquireSession(id)).requests[id].phase.Rejected? <==>
               exists other :: other != id && Occupies(s, other, r.session)))
      && (r.phase.SessionHeld? ==>
            (Apply(s, AcquireBackend(id)).requests[id].phase.Refused? <==>
               exists other :: other != id && Owns(s, other, r.kind)))
  {
    RunKeepsInv(events, n);
    hide Run;
    var s := Run(events, n);
    assert s.requests[id].phase.Submitted? ==> forall session :: !Occupies(s, id, session);
    assert s.requests[id].phase.SessionHeld? ==> forall kind :: !Owns(s, id, kind);
  }

  /** Nothing leaks: once every request has been rejected or has finished, both
      gates are free and no recording is left. */
  lemma QuiescentIsFree(events: seq<Event>, n: nat)
    requires n <= |events|
    requires forall id :: id in Run(events, n).requests ==>
               Run(events, n).requests[id].phase.Rejected? || Run(events, n).requests[id].phase.Finished?
    ensures Run(events, n).backend == {} && Run(events, n).busy == {} && Run(events, n).audio == map[]
  {
    RunKeepsInv(events, n);
    hide Run;
    var s := Run(events, n);
    assert forall kind :: kind !in s.backend;
    assert forall session :: session !in s.busy;
    assert forall session :: session !in s.audio;
  }

  /** A session's recording belongs to the ASR request that holds both gates. */
  lemma RecordingNeedsLease(events: seq<Event>, n: nat, session: nat)
    requires n <= |events| && session in Run(events, n).audio
    ensures var s := Run(events, n); var id := s.audio[session];
      && id in s.requests && s.requests[id].session == session && s.requests[id].kind == Asr
      && s.requests[id].phase == Leased(Live) && Asr in s.backend && session in s.busy
      && forall other :: Records(s, session, other) ==> other == id
  {
    RunKeepsInv(events, n);
    hide Run;
    var s := Run(events, n);
    assert Records(s, session, s.audio[session]);
    assert Owns(s, s.audio[session], Asr) && Occupies(s, s.audio[session], session);
  }
}
