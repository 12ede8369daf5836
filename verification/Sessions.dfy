/** Gates and recordings together: which request's recording a session holds, while any
    number of requests and sessions interleave. */
module Sessions {
  import opened Wrappers
  import opened Wire
  import Admission
  import AsrInput

  /** The gates with all requests, and the recording of each session with its thread. */
  datatype State = State(gates: Admission.State, recordings: map<nat, AsrInput.State>)

  const INITIAL := State(Admission.INITIAL, map[])

  function Of(s: State, session: nat): AsrInput.State
  {
    if session in s.recordings then s.recordings[session] else AsrInput.INITIAL
  }

  /** A step of the gates, a request with its lease making its recording or returning from
      its loop, or a step of one session's recording. */
  datatype Event =
    | Gate(e: Admission.Event)
    | Begin(id: nat, stream: u32)
    | End(id: nat)
    | Input(session: nat, input: AsrInput.Event)

  predicate IsGate(e: Admission.Event) { !e.StartRecording? && !e.ClearRecording? }

  predicate IsInput(e: AsrInput.Event) { e.Receive? || e.Stop? || e.Wake? || e.Transcribed? }

  predicate MayBegin(s: State, id: nat)
  {
    && id in s.gates.requests && s.gates.requests[id].kind == Admission.Asr
    && s.gates.requests[id].phase == Admission.Leased(Admission.NotYet)
  }

  predicate MayEnd(s: State, id: nat)
  {
    && id in s.gates.requests && s.gates.requests[id].phase == Admission.Leased(Admission.Live)
    && Of(s, s.gates.requests[id].session).worker.Done?
  }

  predicate IsOwn(a: AsrInput.State, requestId: string) { a.audio.Some? && a.audio.value.requestId == requestId }

  /** `name` gives requests the identifiers the client chose for them. The clean-up looks
      at the identifier, as it cannot know whose recording it finds. */
  function Apply(l: AsrInput.Limits, name: nat -> string, s: State, e: Event): State
  {
    match e
    case Gate(g) => if IsGate(g) then s.(gates := Admission.Apply(s.gates, g)) else s
    case Begin(id, stream) =>
      if !MayBegin(s, id) then s
      else
        var session := s.gates.requests[id].session;
        State(Admission.Apply(s.gates, Admission.StartRecording(id)),
              s.recordings[session := AsrInput.Apply(l, Of(s, session), AsrInput.Start(name(id), stream))])
    case End(id) =>
      if !MayEnd(s, id) then s
      else
        var session := s.gates.requests[id].session;
        var before := Of(s, session);
        State(Admission.Apply(s.gates, Admission.ClearRecording(id)),
              s.recordings[session :=
                if IsOwn(before, name(id)) then AsrInput.Apply(l, before, AsrInput.CleanUp) else before])
    case Input(session, input) =>
      if IsInput(input) then s.(recordings := s.recordings[session := AsrInput.Apply(l, Of(s, session), input)]) else s
  }

  function Run(l: AsrInput.Limits, name: nat -> string, events: seq<Event>, n: nat): State
    requires n <= |events|
  {
    if n == 0 then INITIAL else Apply(l, name, Run(l, name, events, n - 1), events[n - 1])
  }

  /** A session holds a recording exactly while the gates know a live request of it, and
      it is that request's. */
  ghost predicate Joined(l: AsrInput.Limits, name: nat -> string, s: State, session: nat)
  {
    var a := Of(s, session);
    && AsrInput.Inv(l, a)
    && (a.audio.Some? <==> session in s.gates.audio)
    && (a.audio.Some? ==> a.audio.value.requestId == name(s.gates.audio[session]))
  }

  ghost predicate Inv(l: AsrInput.Limits, name: nat -> string, s: State)
  {
    Admission.Inv(s.gates) && forall session :: Joined(l, name, s, session)
  }

  lemma GatesKeepInv(g: Admission.State, e: Admission.Event)
    requires Admission.Inv(g)
    ensures Admission.Inv(Admission.Apply(g, e))
    ensures IsGate(e) ==> Admission.Apply(g, e).audio == g.audio
  {
    hide Admission.BackendInv, Admission.SessionInv, Admission.AudioInv;
    Admission.BackendStep(g, e);
    Admission.SessionStep(g, e);
    Admission.AudioStep(g, e);
  }

  /** Steps of a recording neither make it nor drop it, nor change whose it is. */
  lemma InputKeepsOwner(l: AsrInput.Limits, a: AsrInput.State, e: AsrInput.Event)
    requires AsrInput.Inv(l, a) && IsInput(e)
    ensures var next := AsrInput.Apply(l, a, e);
      && AsrInput.Inv(l, next) && next.audio.Some? == a.audio.Some?
      && (a.audio.Some? ==> next.audio.value.requestId == a.audio.value.requestId)
  {
    hide AsrInput.Inv, AsrInput.OnBinary;
    AsrInput.ApplyKeepsInv(l, a, e);
    if e.Receive? && a.audio.Some? {
      AsrInput.ReceiveOnlyAdds(l, a.audio.value, e.frame);
    }
  }

  /** A request that is about to record finds no recording in its session. */
  lemma NoneBefore(g: Admission.State, id: nat)
    requires Admission.Inv(g) && id in g.requests
    requires g.requests[id].phase == Admission.Leased(Admission.NotYet)
    ensures g.requests[id].session !in g.audio
  {
    var session := g.requests[id].session;
    assert Admission.Occupies(g, id, session);
    if session in g.audio {
      assert Admission.Records(g, session, g.audio[session]);
      assert Admission.Occupies(g, g.audio[session], session);
    }
  }

  /** A live request finds its own. */
  lemma OwnRecorded(g: Admission.State, id: nat)
    requires Admission.Inv(g) && id in g.requests
    requires g.requests[id].phase == Admission.Leased(Admission.Live)
    ensures g.requests[id].session in g.audio && g.audio[g.requests[id].session] == id
  {
    assert Admission.Records(g, g.requests[id].session, id);
  }

  lemma IdleIffNone(l: AsrInput.Limits, a: AsrInput.State)
    requires AsrInput.Inv(l, a)
    ensures a.worker.Idle? <==> a.audio.None?
  {
    hide AsrInput.GaplessInv, AsrInput.Transcribes;
  }

  lemma BeginKeepsInv(l: AsrInput.Limits, name: nat -> string, s: State, id: nat, stream: u32)
    requires Inv(l, name, s) && MayBegin(s, id)
    ensures Inv(l, name, Apply(l, name, s, Begin(id, stream)))
  {
    hide AsrInput.Inv, Admission.Inv;
    var session := s.gates.requests[id].session;
    var start := AsrInput.Start(name(id), stream);
    assert Joined(l, name, s, session);
    NoneBefore(s.gates, id);
    IdleIffNone(l, Of(s, session));
    GatesKeepInv(s.gates, Admission.StartRecording(id));
    AsrInput.ApplyKeepsInv(l, Of(s, session), start);
    var next := Apply(l, name, s, Begin(id, stream));
    forall other
      ensures Joined(l, name, next, other)
    {
      assert Joined(l, name, s, other);
    }
  }

  lemma EndKeepsInv(l: AsrInput.Limits, name: nat -> string, s: State, id: nat)
    requires Inv(l, name, s) && MayEnd(s, id)
    ensures Inv(l, name, Apply(l, name, s, End(id)))
  {
    hide AsrInput.Inv, Admission.Inv;
    var session := s.gates.requests[id].session;
    assert Joined(l, name, s, session);
    OwnRecorded(s.gates, id);
    GatesKeepInv(s.gates, Admission.ClearRecording(id));
    AsrInput.ApplyKeepsInv(l, Of(s, session), AsrInput.CleanUp);
    var next := Apply(l, name, s, End(id));
    forall other
      ensures Joined(l, name, next, other)
    {
      assert Joined(l, name, s, other);
    }
  }

  lemma ApplyKeepsInv(l: AsrInput.Limits, name: nat -> string, s: State, e: Event)
    requires Inv(l, name, s)
    ensures Inv(l, name, Apply(l, name, s, e))
  {
    hide AsrInput.Inv, Admission.Inv, AsrInput.Apply, Admission.Apply;
    var next := Apply(l, name, s, e);
    if e.Begin? && MayBegin(s, e.id) {
      BeginKeepsInv(l, name, s, e.id, e.stream);
    } else if e.End? && MayEnd(s, e.id) {
      EndKeepsInv(l, name, s, e.id);
    } else if e.Gate? && IsGate(e.e) {
      GatesKeepInv(s.gates, e.e);
      forall session
        ensures Joined(l, name, next, session)
      {
        assert Joined(l, name, s, session);
      }
    } else if e.Input? && IsInput(e.input) {
      assert Joined(l, name, s, e.session);
      InputKeepsOwner(l, Of(s, e.session), e.input);
      forall session
        ensures Joined(l, name, next, session)
      {
        assert Joined(l, name, s, session);
      }
    }
  }

  lemma NothingYet(l: AsrInput.Limits, name: nat -> string)
    ensures Inv(l, name, INITIAL)
  {
    Admission.RunKeepsInv([], 0);
    AsrInput.RunKeepsInv(l, [], 0);
  }

  lemma {:induction false} RunKeepsInv(l: AsrInput.Limits, name: nat -> string, events: seq<Event>, n: nat)
    requires n <= |events|
    ensures Inv(l, name, Run(l, name, events, n))
  {
    hide Inv, Apply;
    if n == 0 {
      NothingYet(l, name);
    } else {
      RunKeepsInv(l, name, events, n - 1);
      ApplyKeepsInv(l, name, Run(l, name, events, n - 1), events[n - 1]);
    }
  }

  /** In every interleaving, a request about to record finds its session's thread idle and
      no recording, so that it replaces nobody's. */
  lemma BeginFindsNone(l: AsrInput.Limits, name: nat -> string, events: seq<Event>, n: nat, id: nat)
    requires n <= |events| && MayBegin(Run(l, name, events, n), id)
    ensures var s := Run(l, name, events, n);
      var a := Of(s, s.gates.requests[id].session);
      a.worker.Idle? && a.audio == None
  {
    hide Run, AsrInput.Inv, Admission.Inv;
    RunKeepsInv(l, name, events, n);
    var s := Run(l, name, events, n);
    NoneBefore(s.gates, id);
    var session := s.gates.requests[id].session;
    assert Joined(l, name, s, session);
    IdleIffNone(l, Of(s, session));
  }

  /** And a request that returns finds its own recording, so that the clean-up by
      identifier always drops exactly it, whatever identifiers the clients choose. */
  lemma EndDropsOwn(l: AsrInput.Limits, name: nat -> string, events: seq<Event>, n: nat, id: nat)
    requires n <= |events| && MayEnd(Run(l, name, events, n), id)
    ensures var s := Run(l, name, events, n);
      var session := s.gates.requests[id].session;
      && IsOwn(Of(s, session), name(id))
      && Of(Apply(l, name, s, End(id)), session).audio == None
      && forall other :: other != session ==> Of(Apply(l, name, s, End(id)), other) == Of(s, other)
  {
    hide Run, AsrInput.Inv, Admission.Inv;
    RunKeepsInv(l, name, events, n);
    var s := Run(l, name, events, n);
    OwnRecorded(s.gates, id);
    assert Joined(l, name, s, s.gates.requests[id].session);
  }

  /** A session's recording belongs to a request that holds both gates, and none is left
      once the session's gate is free. */
  lemma RecordingIsLeased(l: AsrInput.Limits, name: nat -> string, events: seq<Event>, n: nat, session: nat)
    requires n <= |events|
    ensures var s := Run(l, name, events, n);
      Of(s, session).audio.Some? ==>
        && session in s.gates.busy && Admission.Asr in s.gates.backend
        && exists id :: Admission.Records(s.gates, session, id) && IsOwn(Of(s, session), name(id))
  {
    hide Run, AsrInput.Inv;
    RunKeepsInv(l, name, events, n);
    var s := Run(l, name, events, n);
    assert Joined(l, name, s, session);
    if Of(s, session).audio.Some? {
      var id := s.gates.audio[session];
      assert Admission.Records(s.gates, session, id);
      assert Admission.Owns(s.gates, id, Admission.Asr) && Admission.Occupies(s.gates, id, session);
    }
  }
}
