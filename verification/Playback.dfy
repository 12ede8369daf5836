/** Browser side of speech playback, and the whole path of one speech request
    from synthesized segments to the samples the player receives. */
module Playback {
  import opened Wrappers
  import opened Wire
  import opened Samples
  import opened OverlapAdd
  import opened SpeechOutput

  datatype Audio =
    | Ignored
    | Invalid
    | Pcm(stream: u32, sequence: u32, rate: u32, samples: seq<real>)

  function DecodeAudio(buffer: seq<byte>): Audio
  {
    match ParseHeader(buffer)
    case None => Ignored
    case Some(h) =>
      if h.kind != AUDIO_TTS then Ignored
      else if h.length != |buffer| - HEADER_BYTES || h.length % 2 != 0 then Invalid
      else Pcm(h.stream, h.sequence, h.rate, DequantiseAll(DecodePcm(buffer[HEADER_BYTES..])))
  }

  method HandleAudio(buffer: seq<byte>) returns (audio: Audio)
    ensures audio == DecodeAudio(buffer)
  {
    if |buffer| < HEADER_BYTES || buffer[..4] != MAGIC || buffer[4] != VERSION || buffer[5] != AUDIO_TTS {
      return Ignored;
    }
    var id := ReadU32(buffer, 8);
    var sampleRate := ReadU32(buffer, 16);
    var length := ReadU32(buffer, 20);
    if length != |buffer| - HEADER_BYTES || length % 2 != 0 {
      return Invalid;
    }
    var pcm := DecodePcm(buffer[HEADER_BYTES..]);
    var samples := new real[|pcm|];
    for index := 0 to |pcm|
      invariant forall i :: 0 <= i < index ==> samples[i] == Dequantise(pcm[i])
    {
      samples[index] := Dequantise(pcm[index]);
    }
    assert samples[..] == DequantiseAll(pcm);
    var sequence := ReadU32(buffer, 12);
    audio := Pcm(id, sequence, sampleRate, samples[..]);
  }

  /** What one stream of the player has received; `failed` once a frame threw. */
  datatype Heard = Heard(next: u32, samples: seq<real>, failed: bool)

  function Hear(h: Heard, stream: u32, frame: seq<byte>): Heard
  {
    match DecodeAudio(frame)
    case Ignored => h
    case Invalid => h.(failed := true)
    case Pcm(id, sequence, rate, samples) =>
      if id != stream then h
      else if samples == [] || rate == 0 || sequence != h.next then h.(failed := true)
      else h.(next := Wrap(sequence + 1), samples := h.samples + samples)
  }

  class PlaybackStream {
    const id: u32
    var audioSequence: u32
    var received: seq<real>
    var failed: bool

    function State(): Heard
      reads this
    {
      Heard(audioSequence, received, failed)
    }

    constructor (id: u32)
      ensures this.id == id && State() == Heard(0, [], false)
    {
      this.id := id;
      audioSequence := 0;
      received := [];
      failed := false;
    }

    method Receive(buffer: seq<byte>)
      modifies this
      ensures State() == Hear(old(State()), id, buffer)
    {
      var audio := HandleAudio(buffer);
      if audio.Invalid? {
        failed := true;
      } else if audio.Pcm? && audio.stream == id {
        if audio.samples == [] || audio.rate == 0 || audio.sequence != audioSequence {
          failed := true;
        } else {
          audioSequence := Wrap(audio.sequence + 1);
          received := received + audio.samples;
        }
      }
    }
  }

  ghost function HearAll(frames: seq<seq<byte>>, stream: u32, n: nat): Heard
    requires n <= |frames|
  {
    if n == 0 then Heard(0, [], false) else Hear(HearAll(frames, stream, n - 1), stream, frames[n - 1])
  }

  /** What a sample sounds like after the PCM16 wire. */
  function Played(samples: seq<real>): seq<real> { DequantiseAll(QuantiseAll(samples)) }

  lemma FrameRoundTrip(frame: seq<byte>, stream: u32, sequence: u32, p: Packet)
    requires Encodes(frame, stream, sequence, p)
    ensures DecodeAudio(frame) == Pcm(stream, sequence, p.rate, Played(p.samples))
  {
    hide Int16Low, Int16High, Int16Of, QuantiseAll, DequantiseAll;
    PcmRoundTrip(frame[HEADER_BYTES..], QuantiseAll(p.samples));
  }

  lemma PlayedAppend(a: seq<real>, b: seq<real>)
    ensures Played(a + b) == Played(a) + Played(b)
  {
  }

  lemma HearNext(h: Heard, stream: u32, frame: seq<byte>, p: Packet)
    requires Encodes(frame, stream, h.next, p) && p.rate > 0 && !h.failed
    ensures Hear(h, stream, frame) == Heard(Wrap(h.next + 1), h.samples + Played(p.samples), false)
  {
    FrameRoundTrip(frame, stream, h.next, p);
  }

  lemma HearPacket(frames: seq<seq<byte>>, stream: u32, packets: seq<Packet>, n: nat)
    requires EncodesPrefix(frames, stream, packets) && 0 < n <= |frames|
    requires packets[n - 1].rate > 0
    ensures Hear(Heard(Wrap(n - 1), Played(SoundOf(packets, n - 1)), false), stream, frames[n - 1]) ==
            Heard(Wrap(n), Played(SoundOf(packets, n)), false)
  {
    hide Encodes, Wrap, Hear, Played, DecodeAudio;
    var p := packets[n - 1];
    assert Encodes(frames[n - 1], stream, Wrap(n - 1), p);
    HearNext(Heard(Wrap(n - 1), Played(SoundOf(packets, n - 1)), false), stream, frames[n - 1], p);
    WrapNext(n - 1);
    PlayedAppend(SoundOf(packets, n - 1), p.samples);
  }

  lemma PlayedNothing()
    ensures Wrap(0) == 0 && Played([]) == []
  {
  }

  /** The player accepts every frame of an uninterrupted prefix and receives
      exactly the quantised sound of the packets it carries. */
  lemma {:induction false} PlayerHearsPackets(frames: seq<seq<byte>>, stream: u32, packets: seq<Packet>, n: nat)
    requires EncodesPrefix(frames, stream, packets) && n <= |frames|
    requires forall p :: p in packets ==> p.rate > 0
    ensures HearAll(frames, stream, n) == Heard(Wrap(n), Played(SoundOf(packets, n)), false)
  {
    hide Encodes, Wrap, Hear, Played, DecodeAudio;
    if n == 0 {
      PlayedNothing();
    } else {
      PlayerHearsPackets(frames, stream, packets, n - 1);
      HearPacket(frames, stream, packets, n);
    }
  }

  /** A stream of the player is fed the frames as they arrive. What it has received is
      what the frames say, and for frames of a sender the quantised sound they carry. */
  method Listen(stream: u32, frames: seq<seq<byte>>, ghost packets: seq<Packet>)
    returns (received: seq<real>, failed: bool)
    ensures HearAll(frames, stream, |frames|).samples == received && HearAll(frames, stream, |frames|).failed == failed
    ensures EncodesPrefix(frames, stream, packets) && (forall p :: p in packets ==> p.rate > 0) ==>
              !failed && received == Played(SoundOf(packets, |frames|))
  {
    hide Hear, Played, EncodesPrefix, SoundOf;
    var player := new PlaybackStream(stream);
    for n := 0 to |frames|
      invariant fresh(player) && player.id == stream && player.State() == HearAll(frames, stream, n)
    {
      player.Receive(frames[n]);
    }
    received, failed := player.received, player.failed;
    if EncodesPrefix(frames, stream, packets) && forall p :: p in packets ==> p.rate > 0 {
      PlayerHearsPackets(frames, stream, packets, |frames|);
    }
  }

  datatype Segment = Segment(samples: seq<real>, rate: u32)

  predicate Audible(s: Segment) { s.rate > 0 && s.samples != [] }

  /** The bodies the first `n` segments leave on the timeline. */
  ghost function BodiesOf(segments: seq<Segment>, n: nat): Bodies
    requires n <= |segments|
  {
    if n == 0 then []
    else if Audible(segments[n - 1])
    then BodiesOf(segments, n - 1) + [Body(segments[n - 1].samples, segments[n - 1].rate)]
    else BodiesOf(segments, n - 1)
  }

  ghost predicate SingleRate(segments: seq<Segment>, n: nat, rate: u32)
    requires n <= |segments|
  {
    forall i :: 0 <= i < n && Audible(segments[i]) ==> segments[i].rate == rate
  }

  /** The speech of the first `n` segments, and what of it is held back meanwhile. */
  ghost function Speech(segments: seq<Segment>, n: nat, rate: u32): seq<real>
    requires n <= |segments|
  {
    Rendered(BodiesOf(segments, n), rate / 10, |BodiesOf(segments, n)|)
  }

  ghost function HeldBack(segments: seq<Segment>, n: nat, rate: u32): nat
    requires n <= |segments|
  {
    Pending(BodiesOf(segments, n), rate / 10, |BodiesOf(segments, n)|)
  }

  /** `run_tts` with the segments the synthesizer delivers, all there are when it
      completes. It succeeds exactly when it completes and all audible segments share one
      rate; the reported sample count is then the length of the joined speech. In every
      case what has gone out plays back as a prefix of the speech of the segments joined,
      after the PCM16 wire: if the stream was not cut off, all of it on success and all
      but the tail held back on a failure. */
  method RunTts(stream: u32, segments: seq<Segment>, completes: bool, cancelAfter: nat, closeAfter: nat)
    returns (samples: Option<nat>, frames: seq<seq<byte>>, ghost joined: nat, ghost rate: u32)
    ensures samples.Some? <==> completes && exists r :: SingleRate(segments, |segments|, r)
    ensures joined <= |segments| && SingleRate(segments, joined, rate)
    ensures samples.Some? ==> joined == |segments| && samples.value == |Speech(segments, joined, rate)|
    ensures samples.None? && joined < |segments| ==> !SingleRate(segments, joined + 1, rate)
    ensures var heard := HearAll(frames, stream, |frames|);
            && !heard.failed && heard.samples <= Played(Speech(segments, joined, rate))
            && |frames| <= Min(cancelAfter, closeAfter)
    ensures var heard, speech := HearAll(frames, stream, |frames|), Speech(segments, joined, rate);
            |frames| < Min(cancelAfter, closeAfter) ==>
              heard.samples ==
              Played(if samples.Some? then speech else speech[..|speech| - HeldBack(segments, joined, rate)])
  {
    hide Rendered, Played, Pending, HearAll, Body, EncodesPrefix, Sound, SoundOf;
    var sender := new SpeechSender(stream, cancelAfter, closeAfter);
    var joiner := new StreamingAudioJoiner(sender);
    for i := 0 to |segments|
      invariant joiner.Valid() && joiner.emit == sender && fresh(joiner) && fresh(sender)
      invariant sender.stream == stream && sender.Limit() == Min(cancelAfter, closeAfter)
      invariant joiner.bodies == BodiesOf(segments, i)
      invariant SingleRate(segments, i, joiner.sampleRate)
      invariant joiner.sampleRate > 0 ==> HasRate(segments, i, joiner.sampleRate)
    {
      var ok := joiner.Push(segments[i].samples, segments[i].rate);
      if !ok {
        assert Audible(segments[i]);
        rate, joined := joiner.sampleRate, i;
        PlaysBackSoFar(sender.sent, sender, joiner, segments, i);
        return None, sender.sent, joined, rate;
      }
    }
    rate, joined := joiner.sampleRate, |segments|;
    if !completes {
      PlaysBackSoFar(sender.sent, sender, joiner, segments, joined);
      return None, sender.sent, joined, rate;
    }
    joiner.Finish();
    samples := Some(sender.totalSamples);
    frames := sender.sent;
    PlaysBack(frames, stream, sender.packets, sender.Limit());
  }

  ghost predicate HasRate(segments: seq<Segment>, n: nat, rate: u32)
    requires n <= |segments|
  {
    exists k :: 0 <= k < n && Audible(segments[k]) && segments[k].rate == rate
  }

  /** While segments are still joined, what has gone out is all but the tail held back. */
  lemma PlaysBackSoFar(
    frames: seq<seq<byte>>, sender: SpeechSender, joiner: StreamingAudioJoiner, segments: seq<Segment>, n: nat)
    requires joiner.Valid() && joiner.emit == sender && frames == sender.sent
    requires n <= |segments| && joiner.bodies == BodiesOf(segments, n)
    ensures var speech := Speech(segments, n, joiner.sampleRate);
      var heard := HearAll(frames, sender.stream, |frames|);
      && HeldBack(segments, n, joiner.sampleRate) <= |speech|
      && !heard.failed && heard.samples <= Played(speech) && |frames| <= sender.Limit()
      && (|frames| < sender.Limit() ==>
            heard.samples == Played(speech[..|speech| - HeldBack(segments, n, joiner.sampleRate)]))
  {
    hide Rendered, Played, Pending, HearAll, EncodesPrefix, Sound;
    var speech := Speech(segments, n, joiner.sampleRate);
    PlaysBack(frames, sender.stream, sender.packets, sender.Limit());
    assert speech[..|speech| - |joiner.tail|] == Sound(sender.packets);
    PlayedPrefix(Sound(sender.packets), speech);
  }

  /** What has been sent of the packets plays back as a prefix of their sound. */
  lemma PlaysBack(frames: seq<seq<byte>>, stream: u32, packets: seq<Packet>, limit: nat)
    requires EncodesPrefix(frames, stream, packets) && |frames| == Min(|packets|, limit)
    requires forall p :: p in packets ==> p.rate > 0
    ensures var heard := HearAll(frames, stream, |frames|);
      && !heard.failed && heard.samples <= Played(Sound(packets)) && |frames| <= limit
      && (|frames| < limit ==> heard.samples == Played(Sound(packets)))
  {
    hide EncodesPrefix, HearAll, Played;
    PlayerHearsPackets(frames, stream, packets, |frames|);
    SoundGrows(packets, |frames|, |packets|);
    PlayedPrefix(SoundOf(packets, |frames|), Sound(packets));
  }

  lemma PlayedPrefix(a: seq<real>, b: seq<real>)
    requires a <= b
    ensures Played(a) <= Played(b)
  {
  }

  /** What the listener gets: a level within one step of the sample where that is in
      range; PCM16 input survives unchanged. */
  lemma PlayedIsFaithful(samples: seq<real>, k: nat)
    requires k < |samples|
    ensures |Played(samples)| == |samples|
    ensures -1.0 <= samples[k] <= 1.0 ==> Abs(Played(samples)[k] - samples[k]) <= 1.0 / 32768.0
    ensures forall v: int16 :: samples[k] == Dequantise(v) ==> Played(samples)[k] == samples[k]
  {
    if -1.0 <= samples[k] <= 1.0 {
      QuantiseError(samples[k]);
    }
    forall v: int16 | samples[k] == Dequantise(v)
      ensures Played(samples)[k] == samples[k]
    {
      QuantiseExact(v);
    }
  }
}
