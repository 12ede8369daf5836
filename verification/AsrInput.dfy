/** The recording buffer of one ASR request: frames arrive, the transcription
    loop takes snapshots, and the client may stop or cancel at any time. */
module AsrInput {
  import opened Wrappers
  import opened Wire
  import opened Samples

  const MAX_ASR_SAMPLES := 480000
  const ASR_RATE := 16000

  datatype AudioError = InvalidBinary | InvalidAudio | AudioSequence | AudioOverflow | AudioTooLong

  datatype AudioInput = AudioInput(
    requestId: string, streamId: u32, expectedSequence: u32, processed: nat,
    samples: seq<real>, final: bool, error: Option<AudioError>)

  /** The two settings the buffer depends on, in samples. */
  datatype Limits = Limits(maxQueued: nat, interval: nat)

  /** `max_audio_queue_ms * 16000 / 1000` and `max(8000, asr_partial_interval_ms * 16000 / 1000)`. */
  function LimitsOf(maxAudioQueueMs: nat, partialIntervalMs: nat): (l: Limits)
    ensures l.interval >= 8000
  {
    Limits(maxAudioQueueMs * 16000 / 1000, Max(8000, partialIntervalMs * 16000 / 1000))
  }

  function Fail(audio: Option<AudioInput>, error: AudioError): Option<AudioInput>
  {
    if audio.None? then None else Some(audio.value.(error := Some(error)))
  }

  predicate GoodShape(h: Header, frame: seq<byte>)
  {
    h.rate == ASR_RATE && h.length == |frame| - HEADER_BYTES && h.length % 2 == 0
  }

  function FrameSamples(frame: seq<byte>): seq<real>
  {
    if |frame| < HEADER_BYTES || |frame| % 2 != 0 then []
    else DequantiseAll(DecodePcm(frame[HEADER_BYTES..]))
  }

  /** A frame of the right kind and shape reaches the buffer. A frame of another
      stream leaves the counter alone; one out of order advances it. */
  function Append(a: AudioInput, h: Header, frame: seq<byte>, maxQueued: nat): AudioInput
  {
    if h.stream != a.streamId then a.(error := Some(AudioSequence))
    else
      var next := a.(expectedSequence := Wrap(a.expectedSequence + 1));
      var count := h.length / 2;
      if h.sequence != a.expectedSequence then next.(error := Some(AudioSequence))
      else if |a.samples| + count > a.processed + maxQueued then next.(error := Some(AudioOverflow))
      else if |a.samples| + count > MAX_ASR_SAMPLES then next.(error := Some(AudioTooLong))
      else next.(samples := a.samples + FrameSamples(frame))
  }

  /** What a binary message of any kind does to the recording buffer. */
  function OnBinary(audio: Option<AudioInput>, frame: seq<byte>, maxQueued: nat): (r: Option<AudioInput>)
    ensures r.Some? == audio.Some?
  {
    match ParseHeader(frame)
    case None => Fail(audio, InvalidBinary)
    case Some(h) =>
      if h.kind == IMAGE_INPUT || h.kind == EBOOK_INPUT then audio
      else if h.kind != AUDIO_ASR || !GoodShape(h, frame) then Fail(audio, InvalidAudio)
      else if audio.None? then None
      else Some(Append(audio.value, h, frame, maxQueued))
  }

  function OnStop(audio: Option<AudioInput>, requestId: string): Option<AudioInput>
  {
    if audio.Some? && audio.value.requestId == requestId then Some(audio.value.(final := true)) else audio
  }

  // ---------------------------------------------------------------- the loop

  datatype Outcome = Text(snapshot: seq<real>) | InputError(error: AudioError) | InferenceFailed | Stopped

  /** Where the request's thread is: waiting for input with `processed` samples
      done, transcribing a snapshot outside the lock, or returning. */
  datatype Worker =
    | Idle
    | Waiting(processed: nat)
    | Transcribing(processed: nat, snapshot: seq<real>, final: bool)
    | Done(outcome: Outcome)

  /** `received` lists every binary message since the request started, and
      `beforeStop` counts those that came before the client's first stop. */
  datatype State = State(
    audio: Option<AudioInput>, worker: Worker, partials: nat, received: seq<seq<byte>>, beforeStop: nat)
  {
    /** How many of the messages received a snapshot in progress must cover. */
    function Owed(): nat { if worker.Transcribing? && worker.final then beforeStop else 0 }
  }

  const INITIAL := State(None, Idle, 0, [], 0)

  datatype Event =
    | Start(requestId: string, streamId: u32)
    | Receive(frame: seq<byte>)
    | Stop(stopId: string)
    | Wake(cancelled: bool)
    | Transcribed(ok: bool)
    | CleanUp

  /** One pass through the loop up to the transcription. */
  function OnWake(audio: Option<AudioInput>, processed: nat, cancelled: bool, interval: nat): Worker
  {
    if cancelled || audio.None? then Done(Stopped)
    else
      var a := audio.value;
      if a.error.Some? then Done(InputError(a.error.value))
      else if !a.final && |a.samples| < processed + interval then Waiting(processed)
      else if |a.samples| < 1600 && !a.final then Waiting(processed)
      else Transcribing(processed, a.samples, a.final)
  }

  function Commit(audio: Option<AudioInput>, processed: nat): Option<AudioInput>
  {
    if audio.None? then None else Some(audio.value.(processed := processed))
  }

  function Apply(l: Limits, s: State, e: Event): State
  {
    match e
    case Start(id, stream) =>
      if s.worker.Idle?
      then State(Some(AudioInput(id, stream, 0, 0, [], false, None)), Waiting(0), 0, [], 0)
      else s
    case Receive(frame) => s.(audio := OnBinary(s.audio, frame, l.maxQueued), received := s.received + [frame])
    case Stop(id) =>
      var stopped := s.audio.Some? && s.audio.value.requestId == id && !s.audio.value.final;
      s.(audio := OnStop(s.audio, id), beforeStop := if stopped then |s.received| else s.beforeStop)
    case Wake(cancelled) =>
      if s.worker.Waiting? then s.(worker := OnWake(s.audio, s.worker.processed, cancelled, l.interval)) else s
    case Transcribed(ok) =>
      if !s.worker.Transcribing? then s
      else if !ok then s.(worker := Done(InferenceFailed))
      else
        var snapshot := s.worker.snapshot;
        var kept := s.(audio := Commit(s.audio, |snapshot|));
        if s.worker.final then kept.(worker := Done(Text(snapshot)))
        else kept.(worker := Waiting(|snapshot|), partials := s.partials + 1)
    case CleanUp => if s.worker.Done? then s.(audio := None, worker := Idle) else s
  }

  /** The state after the first `n` events, in any interleaving. */
  function Run(l: Limits, events: seq<Event>, n: nat): State
    requires n <= |events|
  {
    if n == 0 then INITIAL else Apply(l, Run(l, events, n - 1), events[n - 1])
  }

  // ------------------------------------------------------------ what it keeps

  /** The messages that concern the recording: all but image and EPUB frames. */
  function Relevant(received: seq<seq<byte>>, n: nat): seq<seq<byte>>
    requires n <= |received|
  {
    if n == 0 then []
    else
      var h := ParseHeader(received[n - 1]);
      if h.Some? && (h.value.kind == IMAGE_INPUT || h.value.kind == EBOOK_INPUT) then Relevant(received, n - 1)
      else Relevant(received, n - 1) + [received[n - 1]]
  }

  predicate IsAsrFrame(frame: seq<byte>, stream: u32, sequence: u32)
  {
    var h := ParseHeader(frame);
    && h.Some? && h.value.kind == AUDIO_ASR && GoodShape(h.value, frame)
    && h.value.stream == stream && h.value.sequence == sequence
  }

  /** The first `n` frames are well formed and number themselves without a gap. */
  predicate Gapless(frames: seq<seq<byte>>, stream: u32, n: nat)
    requires n <= |frames|
  {
    forall i :: 0 <= i < n ==> IsAsrFrame(frames[i], stream, Wrap(i))
  }

  function Decoded(frames: seq<seq<byte>>, n: nat): seq<real>
    requires n <= |frames|
  {
    if n == 0 then [] else Decoded(frames, n - 1) + FrameSamples(frames[n - 1])
  }

  lemma {:induction false} DecodedStable(frames: seq<seq<byte>>, more: seq<seq<byte>>, stream: u32, n: nat)
    requires n <= |frames| && frames <= more && Gapless(frames, stream, n)
    ensures Gapless(more, stream, n) && Decoded(frames, n) == Decoded(more, n)
  {
    hide IsAsrFrame, FrameSamples;
    if n > 0 {
      DecodedStable(frames, more, stream, n - 1);
    }
  }

  lemma {:induction false} RelevantStable(received: seq<seq<byte>>, more: seq<seq<byte>>, n: nat)
    requires n <= |received| && received <= more
    ensures Relevant(received, n) == Relevant(more, n)
  {
    hide ParseHeader;
    if n > 0 {
      RelevantStable(received, more, n - 1);
    }
  }

  lemma {:induction false} RelevantGrows(received: seq<seq<byte>>, m: nat, n: nat)
    requires m <= n <= |received|
    ensures |Relevant(received, m)| <= |Relevant(received, n)|
  {
    hide ParseHeader;
    if m < n {
      RelevantGrows(received, m, n - 1);
    }
  }

  /** `samples` is exactly what the first relevant messages carry, with those
      among the first `atLeast` messages received included. */
  ghost predicate FirstFrames(received: seq<seq<byte>>, stream: u32, samples: seq<real>, atLeast: nat, k: nat)
    requires atLeast <= |received|
  {
    var frames := Relevant(received, |received|);
    && |Relevant(received, atLeast)| <= k <= |frames|
    && Gapless(frames, stream, k)
    && samples == Decoded(frames, k)
  }

  ghost predicate Transcribes(received: seq<seq<byte>>, stream: u32, samples: seq<real>, atLeast: nat)
    requires atLeast <= |received|
  {
    exists k :: FirstFrames(received, stream, samples, atLeast, k)
  }

  /** Both limits: thirty seconds in all, and the queue of what is not processed. */
  predicate Fits(l: Limits, a: AudioInput)
  {
    a.processed <= |a.samples| <= Min(MAX_ASR_SAMPLES, a.processed + l.maxQueued)
  }

  ghost predicate GaplessInv(received: seq<seq<byte>>, a: AudioInput)
  {
    var frames := Relevant(received, |received|);
    a.error.None? ==>
      FirstFrames(received, a.streamId, a.samples, |received|, |frames|) && a.expectedSequence == Wrap(|frames|)
  }

  /** `samples` is what all relevant messages carry, none missing. */
  ghost predicate DecodesAll(received: seq<seq<byte>>, stream: u32, samples: seq<real>)
  {
    var frames := Relevant(received, |received|);
    Gapless(frames, stream, |frames|) && samples == Decoded(frames, |frames|)
  }

  /** Invariant of every reachable state. */
  ghost predicate Inv(l: Limits, s: State)
  {
    && (s.worker.Idle? <==> s.audio.None?)
    && s.partials * l.interval <= MAX_ASR_SAMPLES
    && s.beforeStop <= |s.received|
    && (s.audio.Some? ==> GaplessInv(s.received, s.audio.value) && Fits(l, s.audio.value))
    && (s.worker.Waiting? ==>
          s.audio.value.processed == s.worker.processed && s.partials * l.interval <= s.worker.processed)
    && (s.worker.Transcribing? ==>
          && s.audio.value.processed == s.worker.processed && s.partials * l.interval <= s.worker.processed
          && s.worker.snapshot <= s.audio.value.samples
          && s.worker.processed <= |s.worker.snapshot|
          && (!s.worker.final ==> s.worker.processed + l.interval <= |s.worker.snapshot|)
          && (s.worker.final ==> s.audio.value.final)
          && Transcribes(s.received, s.audio.value.streamId, s.worker.snapshot, s.Owed()))
    && (s.worker.Done? && s.worker.outcome.Text? ==>
          && s.audio.value.final
          && Transcribes(s.received, s.audio.value.streamId, s.worker.outcome.snapshot, s.beforeStop))
  }

  predicate Skipped(frame: seq<byte>)
  {
    var h := ParseHeader(frame);
    h.Some? && (h.value.kind == IMAGE_INPUT || h.value.kind == EBOOK_INPUT)
  }

  lemma RelevantStep(received: seq<seq<byte>>, frame: seq<byte>)
    ensures var more := received + [frame];
            Relevant(more, |more|) ==
            if Skipped(frame) then Relevant(received, |received|) else Relevant(received, |received|) + [frame]
  {
    hide ParseHeader;
    RelevantStable(received, received + [frame], |received|);
  }

  lemma DecodedStep(frames: seq<seq<byte>>, stream: u32, frame: seq<byte>)
    requires Gapless(frames, stream, |frames|) && IsAsrFrame(frame, stream, Wrap(|frames|))
    ensures Gapless(frames + [frame], stream, |frames| + 1)
    ensures Decoded(frames + [frame], |frames| + 1) == Decoded(frames, |frames|) + FrameSamples(frame)
  {
    hide IsAsrFrame, FrameSamples;
    DecodedStable(frames, frames + [frame], stream, |frames|);
  }

  /** A message that belongs to an upload, or the next frame of the stream when it fits
      both limits. */
  predicate Acceptable(l: Limits, a: AudioInput, frame: seq<byte>)
  {
    || Skipped(frame)
    || (&& IsAsrFrame(frame, a.streamId, a.expectedSequence)
        && |a.samples| + (|frame| - HEADER_BYTES) / 2 <= Min(MAX_ASR_SAMPLES, a.processed + l.maxQueued))
  }

  /** A message leaves the recording without an error exactly when it is acceptable;
      the samples of a frame are then appended. */
  lemma AcceptedExactly(l: Limits, a: AudioInput, frame: seq<byte>)
    ensures var next := OnBinary(Some(a), frame, l.maxQueued).value;
      && (next.error.None? <==> a.error.None? && Acceptable(l, a, frame))
      && (next.error.None? ==>
          if Skipped(frame) then next == a
          else next.samples == a.samples + FrameSamples(frame) && next.expectedSequence == Wrap(a.expectedSequence + 1))
  {
    hide ParseHeader, FrameSamples, Wrap;
  }

  lemma ReceiveKeepsGapless(l: Limits, received: seq<seq<byte>>, a: AudioInput, frame: seq<byte>)
    requires GaplessInv(received, a)
    ensures GaplessInv(received + [frame], OnBinary(Some(a), frame, l.maxQueued).value)
  {
    hide OnBinary, GaplessInv, Skipped, IsAsrFrame;
    var next := OnBinary(Some(a), frame, l.maxQueued).value;
    AcceptedExactly(l, a, frame);
    ReceiveOnlyAdds(l, a, frame);
    NextFrameKeepsGapless(received, a, frame, next);
  }

  lemma NextFrameKeepsGapless(received: seq<seq<byte>>, a: AudioInput, frame: seq<byte>, next: AudioInput)
    requires GaplessInv(received, a) && next.streamId == a.streamId
    requires next.error.None? ==>
               && a.error.None?
               && if Skipped(frame) then next == a
                  else && IsAsrFrame(frame, a.streamId, a.expectedSequence)
                       && next.samples == a.samples + FrameSamples(frame)
                       && next.expectedSequence == Wrap(a.expectedSequence + 1)
    ensures GaplessInv(received + [frame], next)
  {
    hide IsAsrFrame, FrameSamples, Skipped, Wrap;
    RelevantStep(received, frame);
    if next.error.None? && !Skipped(frame) {
      var frames := Relevant(received, |received|);
      DecodedStep(frames, a.streamId, frame);
      WrapNext(|frames|);
    }
  }

  /** Receiving never shortens the buffer, unsets an error or moves `processed`. */
  lemma ReceiveKeepsFits(l: Limits, a: AudioInput, frame: seq<byte>)
    requires Fits(l, a)
    ensures Fits(l, OnBinary(Some(a), frame, l.maxQueued).value)
  {
    hide OnBinary;
    ReceiveOnlyAdds(l, a, frame);
  }

  lemma ReceiveOnlyAdds(l: Limits, a: AudioInput, frame: seq<byte>)
    ensures var next := OnBinary(Some(a), frame, l.maxQueued).value;
      && next.streamId == a.streamId && next.requestId == a.requestId && next.final == a.final
      && next.processed == a.processed && a.samples <= next.samples
      && (next.samples == a.samples || |next.samples| <= Min(MAX_ASR_SAMPLES, a.processed + l.maxQueued))
      && (a.error.Some? ==> next.error.Some?)
  {
    hide ParseHeader, Wrap;
  }

  lemma ReceiveKeepsTranscribes(
    received: seq<seq<byte>>, frame: seq<byte>, stream: u32, samples: seq<real>, atLeast: nat)
    requires atLeast <= |received| && Transcribes(received, stream, samples, atLeast)
    ensures Transcribes(received + [frame], stream, samples, atLeast)
  {
    hide IsAsrFrame, FrameSamples, Skipped;
    var more := received + [frame];
    var k :| FirstFrames(received, stream, samples, atLeast, k);
    RelevantStep(received, frame);
    RelevantStable(received, more, atLeast);
    DecodedStable(Relevant(received, |received|), Relevant(more, |more|), stream, k);
    assert FirstFrames(more, stream, samples, atLeast, k);
  }

  lemma ReceiveKeepsInv(l: Limits, s: State, frame: seq<byte>)
    requires Inv(l, s)
    ensures Inv(l, Apply(l, s, Receive(frame)))
  {
    hide OnBinary, GaplessInv, Transcribes;
    if s.audio.Some? {
      ReceiveKeepsGapless(l, s.received, s.audio.value, frame);
      ReceiveOnlyAdds(l, s.audio.value, frame);
      var stream := s.audio.value.streamId;
      if s.worker.Transcribing? {
        ReceiveKeepsTranscribes(s.received, frame, stream, s.worker.snapshot, s.Owed());
      } else if s.worker.Done? && s.worker.outcome.Text? {
        ReceiveKeepsTranscribes(s.received, frame, stream, s.worker.outcome.snapshot, s.beforeStop);
      }
    }
  }

  lemma OnePassMore(partials: nat, interval: nat, processed: nat, next: nat)
    requires partials * interval <= processed && processed + interval <= next
    ensures (partials + 1) * interval <= next
  {
  }

  lemma WakeKeepsInv(l: Limits, s: State, cancelled: bool)
    requires Inv(l, s)
    ensures Inv(l, Apply(l, s, Wake(cancelled)))
  {
    hide Relevant, Gapless, Decoded, Wrap;
    var next := Apply(l, s, Wake(cancelled));
    if next.worker.Transcribing? && s.worker.Waiting? {
      RelevantGrows(s.received, next.Owed(), |s.received|);
      assert FirstFrames(s.received, s.audio.value.streamId, s.audio.value.samples,
                         next.Owed(), |Relevant(s.received, |s.received|)|);
    }
  }

  lemma TranscribedKeepsInv(l: Limits, s: State, ok: bool)
    requires Inv(l, s)
    ensures Inv(l, Apply(l, s, Transcribed(ok)))
  {
    hide Transcribes, Relevant, Gapless, Decoded, Wrap;
    if ok && s.worker.Transcribing? && !s.worker.final {
      OnePassMore(s.partials, l.interval, s.worker.processed, |s.worker.snapshot|);
    }
  }

  lemma StartKeepsInv(l: Limits, s: State, requestId: string, stream: u32)
    requires Inv(l, s)
    ensures Inv(l, Apply(l, s, Start(requestId, stream)))
  {
    hide Transcribes;
    assert Relevant([], 0) == [] && Decoded([], 0) == [] && Wrap(0) == 0;
  }

  lemma EndKeepsInv(l: Limits, s: State, e: Event)
    requires Inv(l, s) && (e.Stop? || e.CleanUp?)
    ensures Inv(l, Apply(l, s, e))
  {
    hide Transcribes, FirstFrames, Relevant;
  }

  lemma ApplyKeepsInv(l: Limits, s: State, e: Event)
    requires Inv(l, s)
    ensures Inv(l, Apply(l, s, e))
  {
    hide Inv, Apply;
    match e
    case Receive(frame) => ReceiveKeepsInv(l, s, frame);
    case Transcribed(ok) => TranscribedKeepsInv(l, s, ok);
    case Wake(cancelled) => WakeKeepsInv(l, s, cancelled);
    case Start(id, stream) => StartKeepsInv(l, s, id, stream);
    case _ => EndKeepsInv(l, s, e);
  }

  lemma {:induction false} RunKeepsInv(l: Limits, events: seq<Event>, n: nat)
    requires n <= |events|
    ensures Inv(l, Run(l, events, n))
  {
    hide Apply, GaplessInv, Transcribes;
    if n > 0 {
      RunKeepsInv(l, events, n - 1);
      ApplyKeepsInv(l, Run(l, events, n - 1), events[n - 1]);
    }
  }

  /** Buffering is bounded in every reachable state, and while a request runs it counts
      as processed what the recording says. */
  lemma BufferBounded(l: Limits, events: seq<Event>, n: nat)
    requires n <= |events|
    ensures var s := Run(l, events, n);
            && (s.audio.Some? ==>
                  && s.audio.value.processed <= |s.audio.value.samples|
                  && |s.audio.value.samples| <= MAX_ASR_SAMPLES
                  && |s.audio.value.samples| <= s.audio.value.processed + l.maxQueued)
            && (s.worker.Waiting? || s.worker.Transcribing? ==>
                  s.audio.Some? && s.audio.value.processed == s.worker.processed)
  {
    hide Apply, GaplessInv, Transcribes, Run;
    RunKeepsInv(l, events, n);
  }

  lemma {:induction false} Multiples(q: nat, d: nat)
    requires d >= 8000
    ensures q * d >= 8000 * q
  {
    if q > 0 {
      Multiples(q - 1, d);
      assert q * d == (q - 1) * d + d;
    }
  }

  /** Each partial result covers at least one more interval, so a request emits
      no more of them than intervals fit into the buffer: at most 60. */
  lemma PartialsBounded(maxAudioQueueMs: nat, partialIntervalMs: nat, events: seq<Event>, n: nat)
    requires n <= |events|
    ensures var l := LimitsOf(maxAudioQueueMs, partialIntervalMs);
            Run(l, events, n).partials * l.interval <= MAX_ASR_SAMPLES && Run(l, events, n).partials <= 60
  {
    hide Run, Inv;
    var l := LimitsOf(maxAudioQueueMs, partialIntervalMs);
    PartialsFit(l, events, n);
    Multiples(Run(l, events, n).partials, l.interval);
  }

  lemma PartialsFit(l: Limits, events: seq<Event>, n: nat)
    requires n <= |events|
    ensures Run(l, events, n).partials * l.interval <= MAX_ASR_SAMPLES
  {
    hide Apply, GaplessInv, Transcribes, Run;
    RunKeepsInv(l, events, n);
  }

  lemma ApplyOnlyAdds(l: Limits, s: State, e: Event)
    requires Inv(l, s) && s.audio.Some? && !e.CleanUp?
    ensures var next := Apply(l, s, e).audio;
      next.Some? && s.audio.value.processed <= next.value.processed && s.audio.value.samples <= next.value.samples
  {
    hide OnBinary, GaplessInv, Transcribes;
    if e.Receive? {
      ReceiveOnlyAdds(l, s.audio.value, e.frame);
    }
  }

  /** Within one request `processed` only grows, and the buffer only extends. */
  lemma {:induction false} ProcessedNeverDecreases(l: Limits, events: seq<Event>, i: nat, n: nat)
    requires i <= n <= |events|
    requires forall k :: i <= k < n ==> !events[k].CleanUp?
    requires Run(l, events, i).audio.Some?
    ensures Run(l, events, n).audio.Some?
    ensures Run(l, events, i).audio.value.processed <= Run(l, events, n).audio.value.processed
    ensures Run(l, events, i).audio.value.samples <= Run(l, events, n).audio.value.samples
    decreases n - i
  {
    hide Apply, Inv;
    if i < n {
      ProcessedNeverDecreases(l, events, i, n - 1);
      RunKeepsInv(l, events, n - 1);
      ApplyOnlyAdds(l, Run(l, events, n - 1), events[n - 1]);
    }
  }

  /** A final snapshot is being transcribed, or its text is already the result. */
  predicate MayStillReport(w: Worker)
  {
    (w.Transcribing? && w.final) || (w.Done? && w.outcome.Text?)
  }

  ghost predicate Failed(s: State) { s.audio.Some? && s.audio.value.error.Some? }

  lemma ErrorStays(l: Limits, s: State, e: Event)
    requires Inv(l, s) && Failed(s) && !e.CleanUp?
    ensures Failed(Apply(l, s, e))
    ensures !MayStillReport(s.worker) ==> !MayStillReport(Apply(l, s, e).worker)
  {
    hide OnBinary, GaplessInv, Transcribes;
    if e.Receive? {
      ReceiveOnlyAdds(l, s.audio.value, e.frame);
    }
  }

  /** An error outlives `final`: whenever it arrives, unless a final snapshot is being
      transcribed by then, the request never reports a text, whatever follows. */
  lemma {:induction false} ErrorWins(l: Limits, events: seq<Event>, i: nat, n: nat)
    requires i <= n <= |events|
    requires forall k :: i <= k < n ==> !events[k].CleanUp?
    requires Failed(Run(l, events, i)) && !MayStillReport(Run(l, events, i).worker)
    ensures Failed(Run(l, events, n)) && !MayStillReport(Run(l, events, n).worker)
    decreases n - i
  {
    hide Apply, Inv, MayStillReport;
    if i < n {
      ErrorWins(l, events, i, n - 1);
      RunKeepsInv(l, events, n - 1);
      ErrorStays(l, Run(l, events, n - 1), events[n - 1]);
    }
  }

  lemma {:induction false} RunStable(l: Limits, events: seq<Event>, more: seq<Event>, n: nat)
    requires n <= |events| && events <= more
    ensures Run(l, events, n) == Run(l, more, n)
  {
    hide Apply;
    if n > 0 {
      RunStable(l, events, more, n - 1);
    }
  }

  /** The continuation `more` of the run makes the request report a text. */
  ghost predicate ReportsAfter(l: Limits, events: seq<Event>, more: seq<Event>)
  {
    && (forall e :: e in more ==> !e.CleanUp?)
    && var w := Run(l, events + more, |events| + |more|).worker;
      w.Done? && w.outcome.Text?
  }

  /** Once there is an error, some continuation reports a text exactly when a final
      snapshot was already being transcribed, or had been. */
  lemma TextAfterErrorIff(l: Limits, events: seq<Event>)
    requires Failed(Run(l, events, |events|))
    ensures (exists more :: ReportsAfter(l, events, more)) <==> MayStillReport(Run(l, events, |events|).worker)
  {
    hide Apply, Run;
    var s := Run(l, events, |events|);
    if MayStillReport(s.worker) {
      Reporting(l, events);
    } else {
      forall more: seq<Event> | forall e :: e in more ==> !e.CleanUp?
        ensures !ReportsAfter(l, events, more)
      {
        RunStable(l, events, events + more, |events|);
        ErrorWins(l, events + more, |events|, |events| + |more|);
      }
    }
  }

  lemma Reporting(l: Limits, events: seq<Event>)
    requires MayStillReport(Run(l, events, |events|).worker)
    ensures exists more :: ReportsAfter(l, events, more)
  {
    hide Inv;
    var s := Run(l, events, |events|);
    if s.worker.Done? {
      assert events + [] == events;
      assert ReportsAfter(l, events, []);
    } else {
      var more := [Transcribed(true)];
      RunStable(l, events, events + more, |events|);
      assert Run(l, events + more, |events| + 1) == Apply(l, s, Transcribed(true));
      assert ReportsAfter(l, events, more);
    }
  }

  /** That race exists: a broken message arrives while the final snapshot is being
      transcribed, and the text is reported all the same. */
  lemma LateErrorIsOvertaken(l: Limits)
    ensures var events := [Start("r", 0), Stop("r"), Wake(false), Receive([]), Transcribed(true)];
      Failed(Run(l, events, 5)) && Run(l, events, 5).worker == Done(Text([]))
  {
    var events := [Start("r", 0), Stop("r"), Wake(false), Receive([]), Transcribed(true)];
    var input := AudioInput("r", 0, 0, 0, [], false, None);
    assert Run(l, events, 0) == INITIAL;
    assert Run(l, events, 1) == State(Some(input), Waiting(0), 0, [], 0);
    assert Run(l, events, 2) == State(Some(input.(final := true)), Waiting(0), 0, [], 0);
    assert Run(l, events, 3) == State(Some(input.(final := true)), Transcribing(0, [], true), 0, [], 0);
    var failed := input.(final := true, error := Some(InvalidBinary));
    assert Run(l, events, 4) == State(Some(failed), Transcribing(0, [], true), 0, [[]], 0);
  }

  /** A reported text transcribes exactly the first frames of the recording, in
      order, without a gap, and including every frame that came before the stop. */
  lemma TextIsGapless(l: Limits, events: seq<Event>, n: nat)
    requires n <= |events|
    ensures var s := Run(l, events, n);
            s.worker.Done? && s.worker.outcome.Text? ==>
              s.audio.Some? &&
              s.beforeStop <= |s.received| &&
              Transcribes(s.received, s.audio.value.streamId, s.worker.outcome.snapshot, s.beforeStop)
  {
    hide Apply, GaplessInv, Run, FirstFrames;
    RunKeepsInv(l, events, n);
  }
}
