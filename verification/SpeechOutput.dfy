/** Server side of speech playback: segments are trimmed and joined online, and
    what the joiner emits leaves as sequenced PCM16 frames. */
module SpeechOutput {
  import opened Wire
  import opened Samples
  import opened OverlapAdd

  const MAX_FRAME_SAMPLES := 4096
  const SILENCE := 0.001

  /** The samples of one frame and their rate. */
  datatype Packet = Packet(rate: u32, samples: seq<real>)

  predicate ValidPacket(p: Packet) { 1 <= |p.samples| <= MAX_FRAME_SAMPLES }

  /** The packets cut from `samples` from position `start` on. */
  ghost function Chunks(samples: seq<real>, rate: u32, start: nat): (r: seq<Packet>)
    ensures forall p :: p in r ==> ValidPacket(p) && p.rate == rate
    decreases |samples| - start
  {
    if start >= |samples| then [] else
      var count := Min(MAX_FRAME_SAMPLES, |samples| - start);
      [Packet(rate, samples[start..start + count])] + Chunks(samples, rate, start + MAX_FRAME_SAMPLES)
  }

  /** What the first `n` packets carry, laid end to end. */
  ghost function SoundOf(packets: seq<Packet>, n: nat): seq<real>
    requires n <= |packets|
  {
    if n == 0 then [] else SoundOf(packets, n - 1) + packets[n - 1].samples
  }

  ghost function Sound(packets: seq<Packet>): seq<real> { SoundOf(packets, |packets|) }

  lemma {:induction false} SoundStable(packets: seq<Packet>, more: seq<Packet>, n: nat)
    requires n <= |packets| && packets <= more
    ensures SoundOf(packets, n) == SoundOf(more, n)
  {
    if n > 0 {
      SoundStable(packets, more, n - 1);
    }
  }

  lemma {:induction false} SoundGrows(packets: seq<Packet>, m: nat, n: nat)
    requires m <= n <= |packets|
    ensures SoundOf(packets, m) <= SoundOf(packets, n)
  {
    if m < n {
      SoundGrows(packets, m, n - 1);
    }
  }

  lemma SoundSnoc(packets: seq<Packet>, p: Packet)
    ensures Sound(packets + [p]) == Sound(packets) + p.samples
  {
    SoundStable(packets, packets + [p], |packets|);
  }

  function From(samples: seq<real>, start: nat): seq<real>
  {
    if start <= |samples| then samples[start..] else []
  }

  lemma ChunkStep(samples: seq<real>, rate: u32, start: nat, p: Packet)
    requires start < |samples|
    requires p == Packet(rate, samples[start..Min(start + MAX_FRAME_SAMPLES, |samples|)])
    ensures Chunks(samples, rate, start) == [p] + Chunks(samples, rate, start + MAX_FRAME_SAMPLES)
    ensures From(samples, start) == p.samples + From(samples, start + MAX_FRAME_SAMPLES)
  {
  }

  /** Cutting into packets loses nothing. */
  lemma {:induction false} ChunksKeepSound(packets: seq<Packet>, samples: seq<real>, rate: u32, start: nat)
    ensures Sound(packets + Chunks(samples, rate, start)) == Sound(packets) + From(samples, start)
    decreases |samples| - start
  {
    hide Sound, From;
    if start < |samples| {
      var p := Packet(rate, samples[start..Min(start + MAX_FRAME_SAMPLES, |samples|)]);
      ChunkStep(samples, rate, start, p);
      hide Chunks;
      var rest := Chunks(samples, rate, start + MAX_FRAME_SAMPLES);
      ChunksKeepSound(packets + [p], samples, rate, start + MAX_FRAME_SAMPLES);
      assert packets + ([p] + rest) == packets + [p] + rest;
      SoundSnoc(packets, p);
    } else {
      assert packets + [] == packets;
      NothingLeft(samples, start);
    }
  }

  lemma NothingLeft(samples: seq<real>, start: nat)
    requires |samples| <= start
    ensures From(samples, start) == []
  {
  }

  function PacketHeader(stream: u32, sequence: u32, p: Packet): Header
    requires ValidPacket(p)
  {
    Header(AUDIO_TTS, stream, sequence, p.rate, 2 * |p.samples|)
  }

  /** `frame` is exactly the wire form of packet `p` as number `sequence`. */
  ghost predicate Encodes(frame: seq<byte>, stream: u32, sequence: u32, p: Packet)
  {
    && ValidPacket(p)
    && StartsWith(frame, PacketHeader(stream, sequence, p))
    && HoldsPcm(frame[HEADER_BYTES..], QuantiseAll(p.samples))
  }

  /** The frames are a prefix of the packets in wire form: frame `i` carries
      packet `i`, numbered from zero and wrapping at 2^32. */
  ghost predicate EncodesPrefix(frames: seq<seq<byte>>, stream: u32, packets: seq<Packet>)
  {
    && |frames| <= |packets|
    && forall i :: 0 <= i < |frames| ==> Encodes(frames[i], stream, Wrap(i), packets[i])
  }

  method BuildFrame(stream: u32, sequence: u32, p: Packet) returns (bytes: seq<byte>)
    requires ValidPacket(p)
    ensures Encodes(bytes, stream, sequence, p)
  {
    var count := |p.samples|;
    var frame := new byte[HEADER_BYTES + count * 2](_ => 0);
    WriteHeader(frame, PacketHeader(stream, sequence, p));
    ghost var header := frame[..HEADER_BYTES];
    for index := 0 to count
      invariant frame[..HEADER_BYTES] == header
      invariant forall i :: 0 <= i < index ==>
                  && frame[HEADER_BYTES + 2 * i] == Int16Low(Quantise(p.samples[i]))
                  && frame[HEADER_BYTES + 2 * i + 1] == Int16High(Quantise(p.samples[i]))
    {
      var value := Quantise(p.samples[index]);
      frame[HEADER_BYTES + index * 2] := Int16Low(value);
      frame[HEADER_BYTES + index * 2 + 1] := Int16High(value);
    }
    bytes := frame[..];
    SameHeader(header, bytes, PacketHeader(stream, sequence, p));
  }

  lemma ExtendPrefix(frames: seq<seq<byte>>, stream: u32, packets: seq<Packet>, frame: seq<byte>, p: Packet)
    requires EncodesPrefix(frames, stream, packets) && |frames| == |packets|
    requires Encodes(frame, stream, Wrap(|frames|), p)
    ensures EncodesPrefix(frames + [frame], stream, packets + [p])
  {
    hide Encodes, Wrap;
    forall i | 0 <= i < |frames| + 1
      ensures Encodes((frames + [frame])[i], stream, Wrap(i), (packets + [p])[i])
    {
    }
  }

  lemma PrefixOfMore(frames: seq<seq<byte>>, stream: u32, packets: seq<Packet>, more: seq<Packet>)
    requires EncodesPrefix(frames, stream, packets) && packets <= more
    ensures EncodesPrefix(frames, stream, more)
  {
    hide Encodes, Wrap;
  }

  /** The session's side of one speech stream. The request is cancelled once
      `cancelAfter` frames are out, and the socket refuses frames once
      `closeAfter` are out. */
  class SpeechSender {
    const stream: u32
    const cancelAfter: nat
    const closeAfter: nat
    var sequence: u32
    var totalSamples: nat
    var sent: seq<seq<byte>>
    /** What would be sent without cancellation. */
    ghost var packets: seq<Packet>

    ghost function Limit(): nat { Min(cancelAfter, closeAfter) }

    /** Nothing is skipped or reordered, however the stream is cut off. */
    ghost predicate InStep()
      reads this
    {
      && |sent| == Min(|packets|, Limit())
      && EncodesPrefix(sent, stream, packets)
      && (|sent| < closeAfter ==> sequence == Wrap(|sent|))
    }

    ghost predicate Valid()
      reads this
    {
      && InStep()
      && totalSamples == |Sound(packets)|
      && (forall p :: p in packets ==> ValidPacket(p))
    }

    constructor (stream: u32, cancelAfter: nat, closeAfter: nat)
      ensures Valid() && packets == [] && sent == []
      ensures this.stream == stream && this.cancelAfter == cancelAfter && this.closeAfter == closeAfter
    {
      this.stream := stream;
      this.cancelAfter := cancelAfter;
      this.closeAfter := closeAfter;
      sequence := 0;
      totalSamples := 0;
      sent := [];
      packets := [];
    }

    method SendBinary(frame: seq<byte>) returns (accepted: bool)
      modifies this`sent
      ensures accepted == (|old(sent)| < closeAfter)
      ensures sent == if accepted then old(sent) + [frame] else old(sent)
    {
      accepted := |sent| < closeAfter;
      if accepted {
        sent := sent + [frame];
      }
    }

    method SendPacket(p: Packet) returns (accepted: bool)
      requires InStep() && ValidPacket(p)
      requires |sent| < cancelAfter
      modifies this`sent, this`sequence, this`packets
      ensures InStep()
      ensures packets == old(packets) + [p]
      ensures !accepted ==> |sent| == Limit()
    {
      hide Encodes, Wrap;
      var frame := BuildFrame(stream, sequence, p);
      WrapNext(|sent|);
      sequence := Wrap(sequence + 1);
      if |sent| < closeAfter {
        ExtendPrefix(sent, stream, packets, frame, p);
      } else {
        PrefixOfMore(sent, stream, packets, packets + [p]);
      }
      packets := packets + [p];
      accepted := SendBinary(frame);
    }

    method SendAudio(samples: seq<real>, rate: u32)
      requires InStep()
      modifies this`sent, this`sequence, this`packets
      ensures InStep()
      ensures packets == old(packets) + Chunks(samples, rate, 0)
    {
      hide Encodes, Wrap, EncodesPrefix;
      ghost var all := packets + Chunks(samples, rate, 0);
      var start, accepted := 0, true;
      while accepted && start < |samples| && |sent| < cancelAfter
        invariant 0 <= start && all == packets + Chunks(samples, rate, start)
        invariant InStep()
        invariant !accepted ==> |sent| == Limit()
        decreases |samples| - start
      {
        var count := Min(MAX_FRAME_SAMPLES, |samples| - start);
        var p := Packet(rate, samples[start..start + count]);
        ghost var before := packets;
        accepted := SendPacket(p);
        ghost var rest := Chunks(samples, rate, start + MAX_FRAME_SAMPLES);
        assert before + ([p] + rest) == packets + rest;
        start := start + MAX_FRAME_SAMPLES;
      }
      PrefixOfMore(sent, stream, packets, all);
      packets := all;
    }

    /** The joiner's callback in `run_tts`. */
    method Emit(samples: seq<real>, rate: u32)
      requires Valid()
      modifies this
      ensures Valid()
      ensures packets == old(packets) + Chunks(samples, rate, 0)
      ensures Sound(packets) == old(Sound(packets)) + samples
    {
      totalSamples := totalSamples + |samples|;
      SendAudio(samples, rate);
      ChunksKeepSound(old(packets), samples, rate, 0);
    }
  }

  predicate Quiet(x: real) { Abs(x) < SILENCE }

  /** How many of the first (last) `limit` samples are quiet without a gap. */
  function QuietHead(s: seq<real>, limit: nat): (r: nat)
    requires limit <= |s|
    ensures r <= limit
    ensures forall k :: 0 <= k < r ==> Quiet(s[k])
    ensures r < limit ==> !Quiet(s[r])
  {
    if limit == 0 then 0 else
      var r := QuietHead(s, limit - 1);
      if r == limit - 1 && Quiet(s[r]) then limit else r
  }

  function QuietTail(s: seq<real>, limit: nat): (r: nat)
    requires limit <= |s|
    ensures r <= limit
    ensures forall k :: |s| - r <= k < |s| ==> Quiet(s[k])
    ensures r < limit ==> !Quiet(s[|s| - r - 1])
  {
    if limit == 0 then 0 else
      var r := QuietTail(s, limit - 1);
      if r == limit - 1 && Quiet(s[|s| - limit]) then limit else r
  }

  lemma QuietHeadUnique(s: seq<real>, limit: nat, r: nat)
    requires r <= limit <= |s|
    requires forall k :: 0 <= k < r ==> Quiet(s[k])
    requires r < limit ==> !Quiet(s[r])
    ensures r == QuietHead(s, limit)
  {
  }

  lemma QuietTailUnique(s: seq<real>, limit: nat, r: nat)
    requires r <= limit <= |s|
    requires forall k :: |s| - r <= k < |s| ==> Quiet(s[k])
    requires r < limit ==> !Quiet(s[|s| - r - 1])
    ensures r == QuietTail(s, limit)
  {
  }

  function Padding(length: nat, rate: u32): nat { Min(rate / 10, length / 2) }

  /** The bounds of the part of `inner` that is kept: the active range and
      `margin` on both sides, or everything when nothing is active. */
  function KeptBounds(inner: seq<real>, search: nat, margin: nat): (r: (nat, nat))
    requires search <= |inner|
    ensures r.0 <= r.1 <= |inner|
  {
    var activeBegin := QuietHead(inner, search);
    var activeEnd := |inner| - QuietTail(inner, search);
    if activeBegin < activeEnd then
      (if activeBegin > margin then activeBegin - margin else 0, Min(|inner|, activeEnd + margin))
    else (0, |inner|)
  }

  function BodyBounds(inner: seq<real>, rate: u32): (r: (nat, nat))
    ensures r.0 <= r.1 <= |inner|
  {
    KeptBounds(inner, Min(rate / 4, |inner| / 2), rate / 100)
  }

  function Inner(samples: seq<real>, rate: u32): seq<real>
  {
    samples[Padding(|samples|, rate)..|samples| - Padding(|samples|, rate)]
  }

  function Body(samples: seq<real>, rate: u32): seq<real>
  {
    var (begin, end) := BodyBounds(Inner(samples, rate), rate);
    Inner(samples, rate)[begin..end]
  }

  /** The positions of `samples` that trimming keeps. */
  function Kept(samples: seq<real>, rate: u32): (r: (nat, nat))
    ensures r.0 <= r.1 <= |samples|
  {
    var (begin, end) := BodyBounds(Inner(samples, rate), rate);
    (Padding(|samples|, rate) + begin, Padding(|samples|, rate) + end)
  }

  /** Trimming keeps one stretch of the segment. What it removes is the padding at both
      ends, whatever that holds, and otherwise only quiet samples; between the paddings
      it keeps the margin around every loud one. */
  lemma TrimKeepsSpeech(samples: seq<real>, rate: u32, i: nat)
    requires i < |samples|
    ensures var (begin, end) := Kept(samples, rate);
      var padding := Padding(|samples|, rate);
      && Body(samples, rate) == samples[begin..end]
      && padding <= begin && end <= |samples| - padding
      && (!(begin <= i < end) ==> i < padding || i >= |samples| - padding || Quiet(samples[i]))
      && (padding <= i < |samples| - padding && !Quiet(samples[i]) ==>
            begin <= Max(padding, i - rate / 100) && Min(|samples| - padding, i + 1 + rate / 100) <= end)
  {
    hide BodyBounds, Padding, Quiet;
    BodyIsKept(samples, rate);
    var inner, padding := Inner(samples, rate), Padding(|samples|, rate);
    if padding <= i < |samples| - padding {
      InnerAt(samples, rate, i);
      InnerKeepsSpeech(inner, rate, i - padding);
    }
  }

  lemma InnerAt(samples: seq<real>, rate: u32, i: nat)
    requires Padding(|samples|, rate) <= i < |samples| - Padding(|samples|, rate)
    ensures i - Padding(|samples|, rate) < |Inner(samples, rate)|
    ensures Inner(samples, rate)[i - Padding(|samples|, rate)] == samples[i]
  {
  }

  lemma BodyIsKept(samples: seq<real>, rate: u32)
    ensures var (begin, end) := Kept(samples, rate);
      && |Inner(samples, rate)| == |samples| - 2 * Padding(|samples|, rate)
      && Body(samples, rate) == samples[begin..end]
      && Padding(|samples|, rate) <= begin && end <= |samples| - Padding(|samples|, rate)
  {
    hide BodyBounds, Padding;
    var padding := Padding(|samples|, rate);
    PaddingFits(|samples|, rate);
    var (begin, end) := BodyBounds(Inner(samples, rate), rate);
    SliceOfSlice(samples, padding, |samples| - padding, begin, end);
  }

  lemma PaddingFits(length: nat, rate: u32)
    ensures 2 * Padding(length, rate) <= length
  {
  }

  lemma SliceOfSlice(s: seq<real>, from: nat, to: nat, begin: nat, end: nat)
    requires from <= to <= |s| && begin <= end <= to - from
    ensures s[from..to][begin..end] == s[from + begin..from + end]
  {
    var inner, outer := s[from..to][begin..end], s[from + begin..from + end];
    assert |inner| == |outer|;
    forall k | 0 <= k < |inner|
      ensures inner[k] == outer[k]
    {
      assert inner[k] == s[from..to][begin + k] == s[from + (begin + k)];
    }
  }

  lemma InnerKeepsSpeech(inner: seq<real>, rate: u32, i: nat)
    requires i < |inner|
    ensures var (begin, end) := BodyBounds(inner, rate);
      && (!(begin <= i < end) ==> Quiet(inner[i]))
      && (!Quiet(inner[i]) ==> begin <= Max(0, i - rate / 100) && Min(|inner|, i + 1 + rate / 100) <= end)
  {
    hide Quiet;
    var search := Min(rate / 4, |inner| / 2);
    assert !Quiet(inner[i]) ==> QuietHead(inner, search) <= i < |inner| - QuietTail(inner, search);
  }

  lemma JoinIs(heard: seq<real>, pending: seq<real>, body: seq<real>, mixed: seq<real>)
    requires |mixed| == Min(|pending|, |body|)
    requires forall k :: 0 <= k < |mixed| ==> mixed[k] == Clamp(pending[k] + body[k])
    ensures heard + mixed + body[|mixed|..] == Join(heard + pending, |pending|, body)
  {
    var joined := Join(heard + pending, |pending|, body);
    var built := heard + mixed + body[|mixed|..];
    forall k | 0 <= k < |built|
      ensures built[k] == joined[k]
    {
      assert joined[k] == JoinedSample(heard + pending, |pending|, body, k);
    }
  }

  lemma NothingYet(bodies: Bodies, overlap: nat)
    requires bodies == []
    ensures Rendered(bodies, overlap, 0) == [] && Pending(bodies, overlap, 0) == 0
  {
  }

  lemma OneMoreBody(bodies: Bodies, more: Bodies, overlap: nat, tail: seq<real>)
    requires |more| == |bodies| + 1 && more[..|bodies|] == bodies
    requires |tail| == Pending(bodies, overlap, |bodies|)
    ensures Pending(more, overlap, |more|) == NextPending(|tail|, |more[|bodies|]|, overlap)
    ensures Rendered(more, overlap, |more|) == Join(Rendered(bodies, overlap, |bodies|), |tail|, more[|bodies|])
  {
    PrefixStable(bodies, more, overlap, |bodies|);
  }

  class StreamingAudioJoiner {
    const emit: SpeechSender
    var sampleRate: u32
    var tail: seq<real>
    ghost var bodies: Bodies

    ghost predicate Valid()
      reads this, emit
    {
      && emit.Valid()
      && (bodies != [] ==> sampleRate > 0)
      && (bodies == [] ==> emit.packets == [])
      && |tail| == Pending(bodies, sampleRate / 10, |bodies|)
      && Sound(emit.packets) + tail == Rendered(bodies, sampleRate / 10, |bodies|)
      && (forall p :: p in emit.packets ==> p.rate == sampleRate)
    }

    constructor (emit: SpeechSender)
      requires emit.Valid() && emit.packets == []
      ensures Valid() && this.emit == emit && sampleRate == 0 && bodies == []
    {
      this.emit := emit;
      sampleRate := 0;
      tail := [];
      bodies := [];
    }

    method ActiveRange(body: seq<real>, search: nat) returns (activeBegin: nat, activeEnd: nat)
      requires search <= |body|
      ensures activeBegin == QuietHead(body, search) && activeEnd == |body| - QuietTail(body, search)
    {
      activeBegin := 0;
      while activeBegin < search && Abs(body[activeBegin]) < SILENCE
        invariant activeBegin <= search
        invariant forall k :: 0 <= k < activeBegin ==> Quiet(body[k])
      {
        activeBegin := activeBegin + 1;
      }
      QuietHeadUnique(body, search, activeBegin);
      activeEnd := |body|;
      while activeEnd > |body| - search && Abs(body[activeEnd - 1]) < SILENCE
        invariant |body| - search <= activeEnd <= |body|
        invariant forall k :: activeEnd <= k < |body| ==> Quiet(body[k])
      {
        activeEnd := activeEnd - 1;
      }
      QuietTailUnique(body, search, |body| - activeEnd);
    }

    method KeepActive(inner: seq<real>, search: nat, margin: nat) returns (body: seq<real>)
      requires search <= |inner|
      ensures body == inner[KeptBounds(inner, search, margin).0..KeptBounds(inner, search, margin).1]
    {
      var activeBegin, activeEnd := ActiveRange(inner, search);
      body := inner;
      if activeBegin < activeEnd {
        var begin := if activeBegin > margin then activeBegin - margin else 0;
        var end := Min(|inner|, activeEnd + margin);
        body := inner[begin..end];
      }
    }

    method Trim(samples: seq<real>, rate: u32) returns (body: seq<real>)
      ensures body == Body(samples, rate)
    {
      var padding := Padding(|samples|, rate);
      var inner := samples[padding..|samples| - padding];
      body := KeepActive(inner, Min(rate / 4, |inner| / 2), rate / 100);
    }

    /** Mixes and emits the pending tail; `rest` is what the tail left of the body. */
    method EmitMixed(body: seq<real>, rate: u32) returns (rest: seq<real>)
      requires emit.Valid()
      modifies this`tail, emit
      ensures emit.Valid() && tail == []
      ensures |rest| == |body| - Min(|old(tail)|, |body|)
      ensures Sound(emit.packets) + rest == Join(old(Sound(emit.packets) + tail), |old(tail)|, body)
      ensures forall p :: p in emit.packets ==> p in old(emit.packets) || p.rate == rate
    {
      hide Clamp, JoinedSample;
      ghost var heard, pending := Sound(emit.packets), tail;
      rest := body;
      if tail != [] {
        var overlap := Min(|tail|, |body|);
        var mixed := new real[overlap];
        for index := 0 to overlap
          invariant emit.Valid() && tail == pending && emit.packets == old(emit.packets)
          invariant forall k :: 0 <= k < index ==> mixed[k] == Clamp(tail[k] + body[k])
        {
          mixed[index] := Clamp(tail[index] + body[index]);
        }
        JoinIs(heard, pending, body, mixed[..]);
        emit.Emit(mixed[..], rate);
        tail := [];
        rest := body[overlap..];
      } else {
        JoinIs(heard, [], body, []);
      }
    }

    /** Emits all of `body` but the part that becomes the new tail. */
    method HoldTail(body: seq<real>, rate: u32)
      requires emit.Valid()
      modifies this`tail, emit
      ensures emit.Valid()
      ensures |tail| == Min(rate / 10, |body|)
      ensures Sound(emit.packets) + tail == old(Sound(emit.packets)) + body
      ensures forall p :: p in emit.packets ==> p in old(emit.packets) || p.rate == rate
    {
      var overlap := Min(rate / 10, |body|);
      if |body| > overlap {
        emit.Emit(body[..|body| - overlap], rate);
      }
      tail := body[|body| - overlap..];
    }

    /** False when the segment's rate differs from the stream's: the source
        throws, and nothing has changed. */
    method Push(samples: seq<real>, rate: u32) returns (ok: bool)
      requires Valid()
      modifies this, emit
      ensures Valid()
      ensures ok == (rate == 0 || samples == [] || old(sampleRate) == 0 || old(sampleRate) == rate)
      ensures if ok && rate > 0 && samples != []
              then bodies == old(bodies) + [Body(samples, rate)] && sampleRate == rate
              else bodies == old(bodies) && sampleRate == old(sampleRate) && emit.packets == old(emit.packets)
    {
      if rate == 0 || samples == [] {
        return true;
      }
      if sampleRate != 0 && sampleRate != rate {
        return false;
      }
      var body := Trim(samples, rate);
      Append(body, rate);
      ok := true;
    }

    method Append(body: seq<real>, rate: u32)
      requires Valid()
      requires rate > 0 && (sampleRate == 0 || sampleRate == rate)
      modifies this, emit
      ensures Valid()
      ensures bodies == old(bodies) + [body] && sampleRate == rate
    {
      hide Rendered, Pending, Join, Sound, EncodesPrefix;
      ghost var overlap, before := (rate / 10) as nat, tail;
      ghost var more := bodies + [body];
      if sampleRate != rate {
        NothingYet(bodies, sampleRate / 10);
        NothingYet(bodies, overlap);
      }
      OneMoreBody(bodies, more, overlap, before);
      sampleRate := rate;
      var rest := EmitMixed(body, rate);
      HoldTail(rest, rate);
      bodies := more;
      assert |tail| == Pending(bodies, overlap, |bodies|);
      assert Sound(emit.packets) + tail == Rendered(bodies, overlap, |bodies|);
    }

    method Finish()
      requires Valid()
      modifies this, emit
      ensures emit.Valid()
      ensures bodies == old(bodies) && sampleRate == old(sampleRate) && tail == []
      ensures Sound(emit.packets) == Rendered(bodies, sampleRate / 10, |bodies|)
      ensures forall p :: p in emit.packets ==> p.rate == sampleRate
      ensures bodies == [] ==> emit.packets == []
    {
      hide Rendered, Pending, EncodesPrefix;
      if bodies == [] {
        NothingYet(bodies, sampleRate / 10);
      }
      if tail != [] {
        emit.Emit(tail, sampleRate);
      }
      tail := [];
    }
  }
}
