/** Browser side of dictation: captured frames wait in a bounded pre-roll until
    enough consecutive speech is heard, and are then streamed. */
module Microphone {
  import opened Wrappers
  import opened Wire
  import opened Samples
  import AsrInput

  /** One captured frame; its PCM bytes fit the header's length field. */
  type Frame = s: seq<int16> | |s| < 0x8000_0000

  /** Frames captured so far, each with the activity decision made for it. */
  datatype Captured = Captured(values: Frame, active: bool)

  function Milliseconds(f: Frame): real { |f| as real / 16.0 }

  /** Samples in the first `n` frames. */
  function Total(history: seq<Captured>, n: nat): nat
    requires n <= |history|
  {
    if n == 0 then 0 else Total(history, n - 1) + |history[n - 1].values|
  }

  /** Duration of the unbroken run of active frames ending at frame `n`. */
  function ActiveMs(history: seq<Captured>, n: nat): real
    requires n <= |history|
  {
    if n == 0 || !history[n - 1].active then 0.0
    else ActiveMs(history, n - 1) + Milliseconds(history[n - 1].values)
  }

  /** Duration of the unbroken silence ending at frame `n`, not counting frames
      up to the trigger `t`. */
  function SilenceMs(history: seq<Captured>, t: nat, n: nat): real
    requires n <= |history|
  {
    if n <= t || history[n - 1].active then 0.0
    else SilenceMs(history, t, n - 1) + Milliseconds(history[n - 1].values)
  }

  /** The oldest frame still held after `n` frames: the first from which on at
      most `limit` samples were captured. */
  function Retained(history: seq<Captured>, n: nat, limit: nat, from: nat): (r: nat)
    requires from <= n <= |history|
    ensures from <= r <= n
    ensures Total(history, n) - Total(history, r) <= limit
    ensures forall j :: from <= j < r ==> Total(history, n) - Total(history, j) > limit
    decreases n - from
  {
    if Total(history, n) - Total(history, from) <= limit then from
    else Retained(history, n, limit, from + 1)
  }

  lemma {:induction false} TotalMonotone(history: seq<Captured>, m: nat, n: nat)
    requires m <= n <= |history|
    ensures Total(history, m) <= Total(history, n)
  {
    if m < n {
      TotalMonotone(history, m, n - 1);
    }
  }

  lemma TotalStep(history: seq<Captured>, n: nat)
    requires n < |history|
    ensures Total(history, n + 1) == Total(history, n) + |history[n].values|
  {
  }

  lemma {:induction false} HistoryStable(history: seq<Captured>, more: seq<Captured>, n: nat)
    requires n <= |history| && history <= more
    ensures Total(history, n) == Total(more, n)
    ensures ActiveMs(history, n) == ActiveMs(more, n)
  {
    if n > 0 {
      HistoryStable(history, more, n - 1);
    }
  }

  lemma {:induction false} SilenceStable(history: seq<Captured>, more: seq<Captured>, t: nat, n: nat)
    requires n <= |history| && history <= more
    ensures SilenceMs(history, t, n) == SilenceMs(more, t, n)
  {
    if n > t {
      SilenceStable(history, more, t, n - 1);
    }
  }

  lemma {:induction false} RetainedStable(history: seq<Captured>, more: seq<Captured>, n: nat, limit: nat, from: nat)
    requires from <= n <= |history| && history <= more
    ensures Retained(history, n, limit, from) == Retained(more, n, limit, from)
    decreases n - from
  {
    HistoryStable(history, more, n);
    HistoryStable(history, more, from);
    if Total(history, n) - Total(history, from) > limit {
      RetainedStable(history, more, n, limit, from + 1);
    }
  }

  lemma RetainedUnique(history: seq<Captured>, n: nat, limit: nat, r: nat)
    requires r <= n <= |history|
    requires Total(history, n) - Total(history, r) <= limit
    requires forall j :: 0 <= j < r ==> Total(history, n) - Total(history, j) > limit
    ensures Retained(history, n, limit, 0) == r
  {
  }

  /** Frame `t` is the one that completes the required run of speech. */
  ghost predicate Triggers(history: seq<Captured>, minimumMs: real, t: nat)
  {
    && 1 <= t <= |history|
    && ActiveMs(history, t) >= minimumMs
    && forall k :: 1 <= k < t ==> ActiveMs(history, k) < minimumMs
  }

  ghost predicate SpeechPending(history: seq<Captured>, minimumMs: real)
  {
    forall k :: 1 <= k <= |history| ==> ActiveMs(history, k) < minimumMs
  }

  /** The samples of frames `from` up to `to`, end to end. */
  function Slice(history: seq<Captured>, from: nat, to: nat): seq<int16>
    requires from <= to <= |history|
  {
    if from == to then [] else Slice(history, from, to - 1) + history[to - 1].values
  }

  datatype Settings = Settings(
    id: u32, minimumSpeechMs: real, voiceMode: bool, silenceLimitMs: real, congestedAfter: nat)

  /** `ceil(minimumSpeechMs * 16)`, but at least half a second. */
  function PreRollLimit(minimumSpeechMs: real): nat
  {
    Max(8000, -(-(minimumSpeechMs * 16.0)).Floor)
  }

  /** `wire` frames are the wire form of captured frames `from`, `from + 1`, ... */
  ghost predicate Streams(wire: seq<seq<byte>>, id: u32, history: seq<Captured>, from: nat)
  {
    && from + |wire| <= |history|
    && forall i :: 0 <= i < |wire| ==> WireForm(wire[i], id, Wrap(i), history[from + i].values)
  }

  ghost predicate WireForm(frame: seq<byte>, id: u32, sequence: u32, values: Frame)
  {
    && StartsWith(frame, Header(AUDIO_ASR, id, sequence, 16000, 2 * |values|))
    && HoldsPcm(frame[HEADER_BYTES..], values)
  }

  method BuildFrame(id: u32, sequence: u32, values: Frame) returns (bytes: seq<byte>)
    ensures WireForm(bytes, id, sequence, values)
  {
    hide PcmBytes, HoldsPcm, ParseHeader;
    var header := new byte[HEADER_BYTES](_ => 0);
    var h := Header(AUDIO_ASR, id, sequence, 16000, 2 * |values|);
    WriteHeader(header, h);
    bytes := header[..] + PcmBytes(values);
    SameHeader(header[..], bytes, h);
    assert bytes[HEADER_BYTES..] == PcmBytes(values);
  }

  /** The buffer behind an Int16Array, on a little-endian machine. */
  function PcmBytes(values: Frame): (pcm: seq<byte>)
    ensures HoldsPcm(pcm, values)
  {
    seq(2 * |values|, i requires 0 <= i < 2 * |values| =>
      if i % 2 == 0 then Int16Low(values[i / 2]) else Int16High(values[i / 2]))
  }

  class Recording {
    const s: Settings
    var live: bool
    var sequence: nat
    var heardSpeech: bool
    var speechMs: real
    var silenceMs: real
    var preRoll: seq<Frame>
    var preRollSamples: nat
    var wire: seq<seq<byte>>
    ghost var history: seq<Captured>
    ghost var trigger: nat
    ghost var from: nat

    function Limit(): nat { PreRollLimit(s.minimumSpeechMs) }

    /** Before speech: nothing is sent and the pre-roll is the longest suffix of
        the frames captured that fits. From the trigger on: what is sent starts
        at the oldest frame then held, skips nothing and ends only where the socket
        is congested; while the recording is live, every frame has been sent. */
    ghost predicate Valid()
      reads this
    {
      && sequence == |wire|
      && (!heardSpeech ==>
            && wire == [] && trigger == 0 && silenceMs == 0.0
            && SpeechPending(history, s.minimumSpeechMs)
            && speechMs == ActiveMs(history, |history|)
            && Held(history))
      && (heardSpeech ==>
            && Triggers(history, s.minimumSpeechMs, trigger)
            && from == Retained(history, trigger, Limit(), 0)
            && Streams(wire, s.id, history, from)
            && |wire| == Min(|history| - from, s.congestedAfter)
            && silenceMs == SilenceMs(history, trigger, |history|)
            && (live ==> from + |wire| == |history|))
    }

    ghost predicate Held(history: seq<Captured>)
      reads this
    {
      && from == Retained(history, |history|, Limit(), 0)
      && PreRollIs(history)
    }

    ghost predicate PreRollIs(history: seq<Captured>)
      reads this
    {
      && from <= |history|
      && |preRoll| == |history| - from
      && (forall i :: 0 <= i < |preRoll| ==> preRoll[i] == history[from + i].values)
      && preRollSamples == Total(history, |history|) - Total(history, from)
    }

    constructor (s: Settings)
      ensures Valid() && live && this.s == s && history == [] && wire == []
    {
      this.s := s;
      live, sequence, heardSpeech := true, 0, false;
      speechMs, silenceMs := 0.0, 0.0;
      preRoll, preRollSamples, wire := [], 0, [];
      history, trigger, from := [], 0, 0;
    }

    /** The user, the server or the voice-mode silence limit ends the recording. */
    method StopCapture()
      requires Valid()
      modifies this`live
      ensures Valid() && !live
    {
      live := false;
    }

    method SendFrame(values: Frame) returns (sent: bool)
      requires live && sequence == |wire|
      modifies this`live, this`sequence, this`wire
      ensures sequence == |wire|
      ensures sent == live == (|old(wire)| < s.congestedAfter)
      ensures if sent then |wire| == |old(wire)| + 1 && wire[..|old(wire)|] == old(wire) &&
                           WireForm(wire[|old(wire)|], s.id, Wrap(|old(wire)|), values)
              else wire == old(wire)
    {
      hide Wrap, WireForm;
      if sequence >= s.congestedAfter {
        live := false;
        return false;
      }
      var frame := BuildFrame(s.id, Wrap(sequence), values);
      sequence := sequence + 1;
      wire := wire + [frame];
      sent := true;
    }

    /** Adds a frame to the pre-roll and drops the oldest ones over the limit. */
    method Hold(values: Frame, ghost more: seq<Captured>)
      requires |more| > 0 && more[|more| - 1].values == values
      requires Held(more[..|more| - 1])
      modifies this`preRoll, this`preRollSamples, this`from
      ensures Held(more)
    {
      hide ActiveMs, Total;
      ghost var n := |more| - 1;
      HistoryStable(more[..n], more, n);
      HistoryStable(more[..n], more, from);
      RetainedStable(more[..n], more, n, Limit(), 0);
      TotalStep(more, n);
      preRoll := preRoll + [values];
      preRollSamples := preRollSamples + |values|;
      DropOldest(more);
    }

    method DropOldest(ghost more: seq<Captured>)
      requires PreRollIs(more)
      requires forall j :: 0 <= j < from ==> Total(more, |more|) - Total(more, j) > Limit()
      modifies this`preRoll, this`preRollSamples, this`from
      ensures Held(more)
    {
      hide Total;
      while preRollSamples > Limit()
        invariant PreRollIs(more)
        invariant forall j :: 0 <= j < from ==> Total(more, |more|) - Total(more, j) > Limit()
        decreases |preRoll|
      {
        TotalMonotone(more, from + 1, |more|);
        TotalStep(more, from);
        preRollSamples := preRollSamples - |preRoll[0]|;
        preRoll := preRoll[1..];
        from := from + 1;
      }
      RetainedUnique(more, |more|, Limit(), from);
    }

    /** Sends everything held; stops at the first frame the socket refuses. */
    method SendHeld(ghost more: seq<Captured>) returns (sent: bool)
      requires live && wire == [] && sequence == 0 && PreRollIs(more)
      modifies this`live, this`sequence, this`wire, this`preRoll, this`preRollSamples
      ensures sequence == |wire| && Streams(wire, s.id, more, from)
      ensures |wire| == Min(|more| - from, s.congestedAfter)
      ensures sent == live == (from + |wire| == |more|)
    {
      hide WireForm, Wrap, Total;
      var buffered := preRoll;
      preRoll, preRollSamples := [], 0;
      for i := 0 to |buffered|
        invariant live && sequence == |wire| == i <= s.congestedAfter
        invariant Streams(wire, s.id, more, from)
      {
        var ok := SendFrame(buffered[i]);
        if !ok {
          return false;
        }
      }
      sent := true;
    }

    /** A frame before speech is confirmed: it is held, and once it completes
        the required run everything held is sent. */
    method OnPendingFrame(values: Frame, active: bool, ghost more: seq<Captured>)
      requires Valid() && live && !heardSpeech
      requires more == history + [Captured(values, active)]
      modifies this
      ensures Valid() && history == more
      ensures heardSpeech == (ActiveMs(more, |more|) >= s.minimumSpeechMs)
      ensures heardSpeech ==> trigger == |more|
      ensures live == (heardSpeech ==> |history| - from <= s.congestedAfter)
    {
      hide Retained, Total, Streams, WireForm, Wrap, PreRollLimit;
      assert more[..|more| - 1] == history;
      HistoryStable(history, more, |history|);
      PendingExtends(history, more, s.minimumSpeechMs);
      Hold(values, more);
      speechMs := if active then speechMs + Milliseconds(values) else 0.0;
      history := more;
      if speechMs < s.minimumSpeechMs {
        return;
      }
      heardSpeech, trigger := true, |more|;
      var sent := SendHeld(more);
    }

    method OnSpeechFrame(values: Frame, active: bool, ghost more: seq<Captured>)
      requires Valid() && live && heardSpeech
      requires more == history + [Captured(values, active)]
      modifies this
      ensures Valid() && history == more && heardSpeech && trigger == old(trigger)
      ensures old(wire) <= wire
      ensures live == (|history| - from <= s.congestedAfter)
    {
      hide Retained, Total, WireForm, Wrap, PreRollLimit, ActiveMs;
      SilenceStable(history, more, trigger, |history|);
      TriggersExtends(history, more, s.minimumSpeechMs, trigger);
      RetainedStable(history, more, trigger, Limit(), 0);
      if active {
        speechMs := speechMs + Milliseconds(values);
        silenceMs := 0.0;
      } else {
        silenceMs := silenceMs + Milliseconds(values);
      }
      history := more;
      var sent := SendFrame(values);
    }

    method OnFrame(values: Frame, active: bool)
      requires Valid()
      modifies this
      ensures Valid()
      ensures history == if old(live) then old(history) + [Captured(values, active)] else old(history)
      ensures old(heardSpeech) ==> heardSpeech && trigger == old(trigger)
      ensures old(wire) <= wire
      ensures old(live) ==>
                live == (heardSpeech ==>
                           && |history| - from <= s.congestedAfter
                           && !(s.voiceMode && SilenceMs(history, trigger, |history|) >= s.silenceLimitMs))
    {
      hide Retained, Total, Streams, PreRollLimit, ActiveMs, Triggers, SpeechPending;
      if !live {
        return;
      }
      if !heardSpeech {
        OnPendingFrame(values, active, history + [Captured(values, active)]);
      } else {
        OnSpeechFrame(values, active, history + [Captured(values, active)]);
      }
      if live && s.voiceMode && heardSpeech && silenceMs >= s.silenceLimitMs {
        StopCapture();
      }
    }
  }

  lemma PendingExtends(history: seq<Captured>, more: seq<Captured>, minimumMs: real)
    requires SpeechPending(history, minimumMs) && |more| == |history| + 1 && history <= more
    ensures if ActiveMs(more, |more|) < minimumMs then SpeechPending(more, minimumMs)
            else Triggers(more, minimumMs, |more|)
  {
    forall k | 1 <= k <= |history|
      ensures ActiveMs(more, k) < minimumMs
    {
      HistoryStable(history, more, k);
    }
  }

  lemma TriggersExtends(history: seq<Captured>, more: seq<Captured>, minimumMs: real, t: nat)
    requires Triggers(history, minimumMs, t) && history <= more
    ensures Triggers(more, minimumMs, t)
  {
    forall k | 1 <= k <= t
      ensures ActiveMs(more, k) == ActiveMs(history, k)
    {
      HistoryStable(history, more, k);
    }
  }

  /** The trigger, once there is one, is unique: speech starts at the first
      frame that completes the required run, and not before. */
  lemma TriggerUnique(history: seq<Captured>, minimumMs: real, t: nat, u: nat)
    requires Triggers(history, minimumMs, t) && Triggers(history, minimumMs, u)
    ensures t == u
  {
  }

  /** The frame at which the unbroken run of active frames ending at `n` began. */
  function RunStart(history: seq<Captured>, n: nat): (r: nat)
    requires n <= |history|
    ensures r <= n
    ensures forall k :: r <= k < n ==> history[k].active
    ensures r > 0 ==> !history[r - 1].active
  {
    if n == 0 || !history[n - 1].active then n else RunStart(history, n - 1)
  }

  lemma {:induction false} ActiveMsIsRun(history: seq<Captured>, n: nat)
    requires n <= |history|
    ensures ActiveMs(history, n) * 16.0 == (Total(history, n) - Total(history, RunStart(history, n))) as real
  {
    if n > 0 && history[n - 1].active {
      ActiveMsIsRun(history, n - 1);
    }
  }

  /** The whole run that confirmed speech is held exactly when its samples fit the
      pre-roll limit. */
  lemma WholeRunHeldIff(history: seq<Captured>, minimumMs: real, t: nat, limit: nat)
    requires Triggers(history, minimumMs, t)
    ensures Retained(history, t, limit, 0) <= RunStart(history, t) <==>
            ActiveMs(history, t) * 16.0 <= limit as real
  {
    ActiveMsIsRun(history, t);
    var start := RunStart(history, t);
    if Retained(history, t, limit, 0) <= start {
      TotalMonotone(history, Retained(history, t, limit, 0), start);
    }
  }

  const FRAME_SAMPLES := 320

  /** The capture worklet posts frames of one fixed length, 20 ms. */
  ghost predicate FixedFrames(history: seq<Captured>)
  {
    forall k :: 0 <= k < |history| ==> |history[k].values| == FRAME_SAMPLES
  }

  function Ceiling(x: real): int { -(-x).Floor }

  lemma {:induction false} RunOfFrames(history: seq<Captured>, n: nat)
    requires n <= |history| && FixedFrames(history)
    ensures ActiveMs(history, n) == 20.0 * (n - RunStart(history, n)) as real
  {
    if n > 0 && history[n - 1].active {
      RunOfFrames(history, n - 1);
    }
  }

  /** The run that completes the threshold has the least sufficient number of frames. */
  lemma TriggeringRun(history: seq<Captured>, minimumMs: real, t: nat)
    requires Triggers(history, minimumMs, t) && FixedFrames(history) && minimumMs > 0.0
    ensures t - RunStart(history, t) == Ceiling(minimumMs / 20.0)
  {
    hide ActiveMs;
    RunOfFrames(history, t);
    RunOfFrames(history, t - 1);
    var r := t - RunStart(history, t);
    assert r > 0;
    assert RunStart(history, t - 1) == RunStart(history, t);
    assert 20.0 * (r - 1) as real < minimumMs by {
      if t > 1 {
        assert ActiveMs(history, t - 1) < minimumMs;
      }
    }
    LeastAbove(minimumMs, r);
  }

  lemma LeastAbove(minimumMs: real, r: int)
    requires 20.0 * (r - 1) as real < minimumMs <= 20.0 * r as real
    ensures Ceiling(minimumMs / 20.0) == r
  {
    var x := minimumMs / 20.0;
    assert minimumMs == 20.0 * x;
    assert (r - 1) as real < x <= r as real;
    assert (-x).Floor == -r;
  }

  /** What the setting must be for the whole run to be streamed: at most 500 ms, or so
      close below a whole number of frames that the limit rounds up to it. */
  predicate ThresholdKeepsOnset(minimumMs: real)
  {
    minimumMs <= 500.0 || 20.0 * Ceiling(minimumMs / 20.0) as real - minimumMs < 0.0625
  }

  lemma OnsetFits(minimumMs: real)
    requires minimumMs > 0.0
    ensures FRAME_SAMPLES * Ceiling(minimumMs / 20.0) <= PreRollLimit(minimumMs) <==> ThresholdKeepsOnset(minimumMs)
  {
    var x := minimumMs / 20.0;
    assert minimumMs == 20.0 * x;
    var r := Ceiling(x);
    assert (r - 1) as real < x <= r as real;
    assert (320 * r) as real == 320.0 * r as real;
    var limit := -(-(minimumMs * 16.0)).Floor;
    assert (limit - 1) as real < minimumMs * 16.0 <= limit as real;
    if minimumMs <= 500.0 {
      assert x <= 25.0;
      assert r <= 25;
    } else {
      assert x > 25.0;
      assert r >= 26;
    }
  }

  /** The run that confirmed speech is streamed from its first frame on exactly when
      the configured threshold allows it. */
  lemma WholeRunStreamedIff(history: seq<Captured>, minimumMs: real, t: nat)
    requires Triggers(history, minimumMs, t) && FixedFrames(history)
    ensures Retained(history, t, PreRollLimit(minimumMs), 0) <= RunStart(history, t) <==>
            ThresholdKeepsOnset(minimumMs)
  {
    hide ActiveMs, PreRollLimit, Ceiling, ThresholdKeepsOnset;
    WholeRunHeldIff(history, minimumMs, t, PreRollLimit(minimumMs));
    RunOfFrames(history, t);
    if minimumMs > 0.0 {
      TriggeringRun(history, minimumMs, t);
      OnsetFits(minimumMs);
    } else {
      EmptyThreshold(history, minimumMs, t);
    }
  }

  lemma EmptyThreshold(history: seq<Captured>, minimumMs: real, t: nat)
    requires Triggers(history, minimumMs, t) && FixedFrames(history) && minimumMs <= 0.0
    ensures ActiveMs(history, t) * 16.0 <= PreRollLimit(minimumMs) as real && ThresholdKeepsOnset(minimumMs)
  {
    RunOfFrames(history, 1);
    assert ActiveMs(history, 1) >= minimumMs;
    assert t == 1;
  }

  /** With frames of at most 20 ms and a threshold of at most 480 ms, as by
      default, it always fits. */
  lemma ShortThresholdStreamsWholeRun(history: seq<Captured>, minimumMs: real, t: nat)
    requires Triggers(history, minimumMs, t)
    requires forall k :: 0 <= k < |history| ==> |history[k].values| <= 320
    requires minimumMs <= 480.0
    ensures Retained(history, t, PreRollLimit(minimumMs), 0) <= RunStart(history, t)
  {
    WholeRunHeldIff(history, minimumMs, t, PreRollLimit(minimumMs));
    assert |history[t - 1].values| <= 320;
    assert t > 1 ==> ActiveMs(history, t - 1) < minimumMs;
  }

  lemma {:induction false} SteadySpeech(history: seq<Captured>, n: nat)
    requires n <= |history|
    requires forall k :: 0 <= k < n ==> history[k].active && |history[k].values| == 320
    ensures ActiveMs(history, n) == 20.0 * n as real && RunStart(history, n) == 0
  {
    if n > 0 {
      SteadySpeech(history, n - 1);
    }
  }

  /** A threshold of 510 ms loses the first 20 ms frame of the run: 26 frames
      complete it, but only 8160 samples are held. */
  lemma LongThresholdCutsOnset(history: seq<Captured>)
    requires |history| == 26
    requires forall k :: 0 <= k < 26 ==> history[k].active && |history[k].values| == 320
    ensures Triggers(history, 510.0, 26)
    ensures Retained(history, 26, PreRollLimit(510.0), 0) > RunStart(history, 26) == 0
  {
    forall k | 1 <= k <= 26
      ensures ActiveMs(history, k) == 20.0 * k as real
    {
      SteadySpeech(history, k);
    }
    SteadySpeech(history, 26);
    assert PreRollLimit(510.0) == 8160;
    WholeRunHeldIff(history, 510.0, 26, 8160);
  }

  lemma WireFrameReaches(frame: seq<byte>, id: u32, sequence: u32, values: Frame)
    requires WireForm(frame, id, sequence, values)
    ensures AsrInput.IsAsrFrame(frame, id, sequence)
    ensures AsrInput.FrameSamples(frame) == DequantiseAll(values)
  {
    hide Int16Low, Int16High, Int16Of, DequantiseAll, U32At;
    PcmRoundTrip(frame[HEADER_BYTES..], values);
  }

  lemma DequantiseAppend(a: seq<int16>, b: seq<int16>)
    ensures DequantiseAll(a + b) == DequantiseAll(a) + DequantiseAll(b)
  {
  }

  lemma {:induction false} StreamDecodes(frames: seq<seq<byte>>, id: u32, history: seq<Captured>, from: nat, k: nat)
    requires Streams(frames, id, history, from) && k <= |frames|
    ensures AsrInput.Gapless(frames, id, k)
    ensures AsrInput.Decoded(frames, k) == DequantiseAll(Slice(history, from, from + k))
  {
    hide WireForm, Wrap, AsrInput.IsAsrFrame, AsrInput.FrameSamples;
    if k == 0 {
      assert DequantiseAll([]) == [];
    } else {
      hide DequantiseAll;
      StreamDecodes(frames, id, history, from, k - 1);
      WireFrameReaches(frames[k - 1], id, Wrap(k - 1), history[from + k - 1].values);
      DequantiseAppend(Slice(history, from, from + k - 1), history[from + k - 1].values);
    }
  }

  /** Microphone to recogniser: whatever the interleaving on the server, if what
      has arrived of this recording is a prefix of what was sent and the buffer
      shows no error, the buffer holds exactly the captured samples from the
      retained frame on, with nothing missing, repeated or reordered. */
  lemma MicrophoneToRecogniser(
    l: AsrInput.Limits, events: seq<AsrInput.Event>, n: nat,
    wire: seq<seq<byte>>, id: u32, history: seq<Captured>, from: nat, arrived: nat)
    requires n <= |events|
    requires Streams(wire, id, history, from) && arrived <= |wire|
    requires var s := AsrInput.Run(l, events, n);
      && s.audio.Some? && s.audio.value.streamId == id && s.audio.value.error.None?
      && AsrInput.Relevant(s.received, |s.received|) == wire[..arrived]
    ensures AsrInput.Run(l, events, n).audio.value.samples == DequantiseAll(Slice(history, from, from + arrived))
  {
    hide WireForm, Wrap;
    AsrInput.RunKeepsInv(l, events, n);
    StreamDecodes(wire[..arrived], id, history, from, arrived);
  }
}
