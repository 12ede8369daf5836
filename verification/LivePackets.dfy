/** The live camera stream: packets are read from a source that returns any
    amount of data at a time, and checked one by one. */
module LivePackets {
  import opened Wrappers
  import opened Wire
  import Jpeg

  const HEADER_SIZE := 20
  const MAX_PAYLOAD := 1024 * 1024

  datatype Error = TimedOut | Disconnected | InvalidHeader | MissingFormat | UnsupportedFormat |
                   MalformedFrame | UnexpectedAudio | AudioGap | InvalidInfo | Overrun

  datatype Result<+T> = Ok(value: T) | Err(error: Error)

  // ------------------------------------------------------------------ the source

  /** A transport with the bytes it will still deliver. Each read returns at most
      as many bytes as the next entry of `replies` says; when there are none left,
      the deadline has passed. */
  class LiveSource {
    const usb: bool
    var data: seq<byte>
    var replies: seq<nat>
    var ended: bool

    constructor (usb: bool, data: seq<byte>, replies: seq<nat>)
      ensures this.usb == usb && this.data == data && this.replies == replies && !ended
    {
      this.usb := usb;
      this.data := data;
      this.replies := replies;
      ended := false;
    }

    method Read(size: nat) returns (chunk: seq<byte>)
      requires replies != []
      modifies this
      ensures |chunk| == Min(size, Min(old(replies)[0], |old(data)|)) && old(data) == chunk + data
      ensures replies == old(replies)[1..] && ended == old(ended)
    {
      var count := Min(size, Min(replies[0], |data|));
      chunk := data[..count];
      data := data[count..];
      replies := replies[1..];
    }

    /** Exactly the next `size` bytes, however they arrive: it succeeds exactly when
        there are so many and the replies carry them in time. On USB an empty read is
        retried until the deadline, on Wi-Fi it is a disconnect. */
    method ReadExact(size: nat) returns (r: Result<seq<byte>>)
      modifies this
      ensures ended == old(ended) && IsSuffix(replies, old(replies)) && IsSuffix(data, old(data))
      ensures r.Ok? <==> |old(data)| >= size && Arrives(usb, old(replies), size)
      ensures r.Ok? ==> |r.value| == size && old(data) == r.value + data
      ensures r.Ok? ==> Useful(usb, old(replies)) <= Useful(usb, replies) + size
      ensures r.Err? ==> Excused(r.error, usb, old(replies), replies, data)
      ensures r.Err? ==> Min(|old(data)|, Useful(usb, old(replies))) < size
    {
      hide Sum, IsSuffix, Arrives, Useful;
      var result: seq<byte> := [];
      ghost var before, all, used := data, replies, 0;
      SuffixOf(all, used);
      SumNothing(all);
      while |result| < size
        invariant |result| <= size && before == result + data && ended == old(ended)
        invariant used <= |all| && replies == all[used..]
        invariant |result| == Min(size, Min(Sum(all, used), |before|))
        invariant !usb ==> forall i :: 0 <= i < used ==> all[i] >= 1
        invariant |before| >= size ==> Useful(usb, all) <= Useful(usb, replies) + |result|
        decreases |replies|
      {
        SuffixOf(all, used);
        UsefulStep(usb, replies);
        if replies == [] {
          SuffixOf(before, |result|);
          GivesUp(usb, all, size, used, |before|);
          return Err(TimedOut);
        }
        ghost var rest := replies;
        var chunk := Read(size - |result|);
        assert replies == rest[1..] == all[used + 1..] && rest[0] == all[used];
        SumNext(all, used);
        used := used + 1;
        assert before == (result + chunk) + data;
        if chunk == [] {
          if !usb {
            SuffixOf(all, used);
            SuffixOf(before, |result|);
            GivesUp(usb, all, size, used - 1, |before|);
            return Err(Disconnected);
          }
        } else {
          result := result + chunk;
        }
      }
      SuffixOf(all, used);
      SuffixOf(before, |result|);
      ArrivesBy(usb, all, size, used);
      r := Ok(result);
    }
  }

  ghost predicate IsSuffix<T>(rest: seq<T>, all: seq<T>)
  {
    |rest| <= |all| && rest == all[|all| - |rest|..]
  }

  lemma SuffixOf<T>(all: seq<T>, used: nat)
    requires used <= |all|
    ensures IsSuffix(all[used..], all)
  {
  }

  /** What the first `k` replies can carry. */
  function Sum(replies: seq<nat>, k: nat): nat
    requires k <= |replies|
  {
    if k == 0 then 0 else Sum(replies, k - 1) + replies[k - 1]
  }

  ghost predicate CarriedBy(usb: bool, replies: seq<nat>, size: nat, k: nat)
  {
    && k <= |replies| && Sum(replies, k) >= size
    && (!usb ==> forall i :: 0 <= i < k ==> replies[i] >= 1)
  }

  /** Some first replies carry `size` bytes; over Wi-Fi none of them is empty. */
  ghost predicate Arrives(usb: bool, replies: seq<nat>, size: nat)
  {
    exists k :: CarriedBy(usb, replies, size, k)
  }

  /** Replies that bring something as long as there is anything: all that are not empty,
      but over Wi-Fi none from the first empty one on. */
  function Useful(usb: bool, replies: seq<nat>): nat
  {
    if replies == [] then 0
    else if replies[0] > 0 then 1 + Useful(usb, replies[1..])
    else if usb then Useful(usb, replies[1..]) else 0
  }

  lemma UsefulStep(usb: bool, replies: seq<nat>)
    ensures replies == [] ==> Useful(usb, replies) == 0
    ensures replies != [] ==>
              Useful(usb, replies) <= Useful(usb, replies[1..]) + if replies[0] > 0 then 1 else 0
    ensures replies != [] && replies[0] == 0 && !usb ==> Useful(usb, replies) == 0
  {
  }

  predicate IsTransport(error: Error) { error.TimedOut? || error.Disconnected? }

  /** The transport gave out: after all replies, or over Wi-Fi on an empty read. */
  ghost predicate Excused(error: Error, usb: bool, before: seq<nat>, after: seq<nat>, data: seq<byte>)
  {
    match error
    case TimedOut => after == []
    case Disconnected => !usb && (0 in before || data == [])
    case _ => false
  }

  lemma {:induction false} SumGrows(replies: seq<nat>, m: nat, n: nat)
    requires m <= n <= |replies|
    ensures Sum(replies, m) <= Sum(replies, n)
  {
    if m < n {
      SumGrows(replies, m, n - 1);
    }
  }

  lemma ArrivesBy(usb: bool, replies: seq<nat>, size: nat, k: nat)
    requires CarriedBy(usb, replies, size, k)
    ensures Arrives(usb, replies, size)
  {
  }

  lemma SumNothing(replies: seq<nat>)
    ensures Sum(replies, 0) == 0
  {
  }

  lemma SumNext(replies: seq<nat>, k: nat)
    requires k < |replies|
    ensures Sum(replies, k + 1) == Sum(replies, k) + replies[k]
  {
  }

  /** Stopped at reply `used` with too little, and nothing better to come. */
  lemma GivesUp(usb: bool, replies: seq<nat>, size: nat, used: nat, available: nat)
    requires used <= |replies| && Min(Sum(replies, used), available) < size
    requires used == |replies| || (!usb && (available >= size ==> replies[used] == 0))
    ensures available >= size ==> !Arrives(usb, replies, size)
  {
    hide Sum;
    if available >= size {
      forall k: nat | k <= |replies|
        ensures !CarriedBy(usb, replies, size, k)
      {
        if k <= used {
          SumGrows(replies, k, used);
        }
      }
    }
  }

  // ----------------------------------------------------------------- the packets

  function BigEndian(s: seq<byte>): nat
  {
    if s == [] then 0 else 256 * BigEndian(s[..|s| - 1]) + s[|s| - 1]
  }

  datatype Fields = Fields(kind: byte, sequence: nat, timestamp: nat, length: nat)

  /** The fields of a header, `>B3xIQI`. */
  function Unpack(h: seq<byte>): Fields
    requires |h| == HEADER_SIZE
  {
    Fields(h[0], BigEndian(h[4..8]), BigEndian(h[8..16]), BigEndian(h[16..20]))
  }

  datatype Packet = Packet(header: seq<byte>, payload: seq<byte>)

  function Bytes(p: Packet): seq<byte> { p.header + p.payload }

  predicate GoodHeader(h: seq<byte>)
    requires |h| == HEADER_SIZE
  {
    && 1 <= h[0] <= 4 && h[1] == 0 && h[2] == 0 && h[3] == 0
    && 0 < Unpack(h).length <= MAX_PAYLOAD
  }

  /** What the checker needs of a metadata payload; `None` where a key is missing
      or, for `audio`, not a boolean. */
  datatype Format = Format(protocol: int, width: nat, height: nat, sampleRate: int, audio: Option<bool>)

  datatype Info = Info(format: Option<Format>, overrun: bool)

  /** The requested size, and how metadata text is understood. */
  datatype Config = Config(width: nat, height: nat, json: seq<byte> -> Option<Info>)

  datatype State = State(started: bool, audioNext: nat, videoNext: nat, audioBytes: nat, withAudio: bool)

  const FRESH := State(false, 0, 0, 1, false)

  predicate ImageOk(cfg: Config, payload: seq<byte>)
  {
    Jpeg.JpegSize(payload) == Jpeg.Dimensions(cfg.width, cfg.height)
  }

  predicate FormatOk(cfg: Config, payload: seq<byte>)
  {
    var info := cfg.json(payload);
    && info.Some? && info.value.format.Some?
    && var f := info.value.format.value;
      && f.protocol == 1 && f.width == cfg.width && f.height == cfg.height
      && (f.sampleRate == 16000 || f.sampleRate == 48000) && f.audio.Some?
  }

  function Configured(cfg: Config, payload: seq<byte>): State
    requires FormatOk(cfg, payload)
  {
    var f := cfg.json(payload).value.format.value;
    State(true, 0, 0, f.sampleRate / 50 * 2, f.audio.value)
  }

  /** The checks of one packet once the format is known. */
  function CheckStarted(cfg: Config, s: State, h: Fields, payload: seq<byte>): Result<State>
    requires s.audioBytes > 0
  {
    if h.kind == 1 then
      if h.sequence != s.videoNext || !Jpeg.Framed(payload) then Err(MalformedFrame)
      else if !ImageOk(cfg, payload) then Err(MalformedFrame)
      else Ok(s.(videoNext := s.videoNext + 1))
    else if h.kind == 2 then
      if !s.withAudio then Err(UnexpectedAudio)
      else if h.sequence != s.audioNext || h.length % s.audioBytes != 0 || h.timestamp != h.sequence * 20000
      then Err(AudioGap)
      else Ok(s.(audioNext := s.audioNext + h.length / s.audioBytes))
    else if h.kind == 3 then
      var info := cfg.json(payload);
      if info.None? then Err(InvalidInfo) else if info.value.overrun then Err(Overrun) else Ok(s)
    else Ok(s)
  }

  /** The checks of one packet; the first must carry the format. */
  function Check(cfg: Config, s: State, h: Fields, payload: seq<byte>): Result<State>
    requires s.audioBytes > 0
  {
    if s.started then CheckStarted(cfg, s, h, payload)
    else if h.kind != 3 then Err(MissingFormat)
    else if !FormatOk(cfg, payload) then Err(UnsupportedFormat)
    else CheckStarted(cfg, Configured(cfg, payload), h, payload)
  }

  lemma CheckKeepsAudioBytes(cfg: Config, s: State, h: Fields, payload: seq<byte>)
    requires s.audioBytes > 0
    ensures Check(cfg, s, h, payload).Ok? ==> Check(cfg, s, h, payload).value.audioBytes > 0
    ensures Check(cfg, s, h, payload).Err? ==> !IsTransport(Check(cfg, s, h, payload).error)
  {
  }

  // ------------------------------------------------------------- a good stream

  function Kind(p: Packet): byte { if |p.header| == HEADER_SIZE then p.header[0] else 0 }

  predicate WellFormed(p: Packet)
  {
    |p.header| == HEADER_SIZE && GoodHeader(p.header) && |p.payload| == Unpack(p.header).length
  }

  /** Camera frames among the first `n` packets. */
  function Videos(packets: seq<Packet>, n: nat): nat
    requires n <= |packets|
  {
    if n == 0 then 0 else Videos(packets, n - 1) + if Kind(packets[n - 1]) == 1 then 1 else 0
  }

  /** 20 ms audio blocks among the first `n` packets. */
  function AudioBlocks(packets: seq<Packet>, n: nat, audioBytes: nat): nat
    requires n <= |packets| && audioBytes > 0
  {
    if n == 0 then 0
    else AudioBlocks(packets, n - 1, audioBytes) +
         if Kind(packets[n - 1]) == 2 then |packets[n - 1].payload| / audioBytes else 0
  }

  /** What packet `i` must be, told from the packets before it. */
  predicate GoodPacket(cfg: Config, packets: seq<Packet>, i: nat)
    requires i < |packets| && FormatOk(cfg, packets[0].payload)
  {
    var format := Configured(cfg, packets[0].payload);
    var p := packets[i];
    && WellFormed(p)
    && var h := Unpack(p.header);
      && (h.kind == 1 ==> h.sequence == Videos(packets, i) && ImageOk(cfg, p.payload))
      && (h.kind == 2 ==>
            && format.withAudio && h.sequence == AudioBlocks(packets, i, format.audioBytes)
            && |p.payload| % format.audioBytes == 0 && h.timestamp == 20000 * h.sequence)
      && (h.kind == 3 ==> cfg.json(p.payload).Some? && !cfg.json(p.payload).value.overrun)
  }

  /** The first `n` packets are as the protocol demands. */
  predicate GoodPrefix(cfg: Config, packets: seq<Packet>, n: nat)
    requires n <= |packets|
  {
    n > 0 ==>
      && Kind(packets[0]) == 3 && FormatOk(cfg, packets[0].payload)
      && forall i :: 0 <= i < n ==> GoodPacket(cfg, packets, i)
  }

  /** The state the checker is in after a good prefix. */
  function StateAfter(cfg: Config, packets: seq<Packet>, n: nat): State
    requires n <= |packets| && (n > 0 ==> FormatOk(cfg, packets[0].payload))
  {
    if n == 0 then FRESH
    else
      var format := Configured(cfg, packets[0].payload);
      format.(videoNext := Videos(packets, n), audioNext := AudioBlocks(packets, n, format.audioBytes))
  }

  function AllBytes(packets: seq<Packet>, n: nat): seq<byte>
    requires n <= |packets|
  {
    if n == 0 then [] else AllBytes(packets, n - 1) + Bytes(packets[n - 1])
  }

  /** A whole stream: good packets, of which exactly the last is an end marker. */
  ghost predicate Complete(cfg: Config, packets: seq<Packet>)
  {
    && packets != [] && GoodPrefix(cfg, packets, |packets|)
    && forall i :: 0 <= i < |packets| ==> (Kind(packets[i]) == 4 <==> i == |packets| - 1)
  }

  // Lists that agree on their first packets agree on everything counted there.

  lemma {:induction false} CountsStable(packets: seq<Packet>, more: seq<Packet>, n: nat, audioBytes: nat)
    requires n <= |packets| && packets <= more && audioBytes > 0
    ensures Videos(packets, n) == Videos(more, n)
    ensures AudioBlocks(packets, n, audioBytes) == AudioBlocks(more, n, audioBytes)
    ensures AllBytes(packets, n) == AllBytes(more, n)
  {
    if n > 0 {
      CountsStable(packets, more, n - 1, audioBytes);
    }
  }

  lemma GoodPacketStable(cfg: Config, packets: seq<Packet>, more: seq<Packet>, i: nat)
    requires i < |packets| && packets <= more && FormatOk(cfg, packets[0].payload)
    ensures GoodPacket(cfg, packets, i) == GoodPacket(cfg, more, i)
  {
    hide ImageOk, Unpack, WellFormed, Kind;
    var audioBytes := Configured(cfg, packets[0].payload).audioBytes;
    CountsStable(packets, more, i, audioBytes);
  }

  lemma GoodPrefixStable(cfg: Config, packets: seq<Packet>, more: seq<Packet>, n: nat)
    requires n <= |packets| && packets <= more
    ensures GoodPrefix(cfg, packets, n) == GoodPrefix(cfg, more, n)
  {
    hide GoodPacket, FormatOk;
    if n > 0 && FormatOk(cfg, packets[0].payload) {
      forall i | 0 <= i < n
        ensures GoodPacket(cfg, packets, i) == GoodPacket(cfg, more, i)
      {
        GoodPacketStable(cfg, packets, more, i);
      }
    }
  }

  lemma StateStable(cfg: Config, packets: seq<Packet>, more: seq<Packet>, n: nat)
    requires n <= |packets| && packets <= more && (n > 0 ==> FormatOk(cfg, packets[0].payload))
    ensures StateAfter(cfg, packets, n) == StateAfter(cfg, more, n)
  {
    if n > 0 {
      CountsStable(packets, more, n, Configured(cfg, packets[0].payload).audioBytes);
    }
  }

  lemma StepState(cfg: Config, packets: seq<Packet>, i: nat)
    requires i < |packets| && FormatOk(cfg, packets[0].payload)
    requires i > 0 || Kind(packets[0]) == 3
    ensures var before := if i == 0 then Configured(cfg, packets[0].payload) else StateAfter(cfg, packets, i);
      StateAfter(cfg, packets, i + 1) ==
      before.(videoNext := before.videoNext + if Kind(packets[i]) == 1 then 1 else 0,
              audioNext := before.audioNext +
                           if Kind(packets[i]) == 2 then |packets[i].payload| / before.audioBytes else 0)
  {
    var format := Configured(cfg, packets[0].payload);
    assert Videos(packets, i + 1) == Videos(packets, i) + if Kind(packets[i]) == 1 then 1 else 0;
    assert AudioBlocks(packets, i + 1, format.audioBytes) ==
           AudioBlocks(packets, i, format.audioBytes) +
           if Kind(packets[i]) == 2 then |packets[i].payload| / format.audioBytes else 0;
    if i == 0 {
      assert Videos(packets, 0) == 0 && AudioBlocks(packets, 0, format.audioBytes) == 0;
    }
  }

  lemma StartedExactly(cfg: Config, packets: seq<Packet>, i: nat)
    requires i < |packets| && FormatOk(cfg, packets[0].payload) && WellFormed(packets[i])
    requires i > 0 || Kind(packets[0]) == 3
    ensures var before := if i == 0 then Configured(cfg, packets[0].payload) else StateAfter(cfg, packets, i);
      var result := CheckStarted(cfg, before, Unpack(packets[i].header), packets[i].payload);
      && (result.Ok? <==> GoodPacket(cfg, packets, i))
      && (result.Ok? ==> result.value == StateAfter(cfg, packets, i + 1))
  {
    hide BigEndian, Jpeg.Walk;
    StepState(cfg, packets, i);
    var p := packets[i];
    var before := if i == 0 then Configured(cfg, packets[0].payload) else StateAfter(cfg, packets, i);
    assert before.audioBytes == Configured(cfg, packets[0].payload).audioBytes;
    assert before.videoNext == Videos(packets, i) && before.audioNext == AudioBlocks(packets, i, before.audioBytes);
    assert Kind(p) == Unpack(p.header).kind;
  }

  /** The running checks accept a packet exactly when the list with it is good. */
  lemma CheckExactly(cfg: Config, packets: seq<Packet>, p: Packet)
    requires GoodPrefix(cfg, packets, |packets|) && WellFormed(p)
    ensures var n := |packets|; var more := packets + [p];
      var result := Check(cfg, StateAfter(cfg, packets, n), Unpack(p.header), p.payload);
      && (result.Ok? <==> GoodPrefix(cfg, more, n + 1))
      && (result.Ok? ==> FormatOk(cfg, more[0].payload) && result.value == StateAfter(cfg, more, n + 1))
  {
    var n, more := |packets|, packets + [p];
    GoodPrefixStable(cfg, packets, more, n);
    if n > 0 {
      StateStable(cfg, packets, more, n);
    }
    hide CheckStarted, GoodPacket, FormatOk, ImageOk;
    if FormatOk(cfg, more[0].payload) && Kind(more[0]) == 3 {
      StartedExactly(cfg, more, n);
    }
  }

  /** `data` starts with the complete stream `expected`, of which `yielded` is a
      proper part. */
  ghost predicate Ahead(cfg: Config, expected: seq<Packet>, yielded: seq<Packet>, data: seq<byte>)
  {
    Complete(cfg, expected) && AllBytes(expected, |expected|) <= data && yielded < expected
  }

  lemma {:induction false} BytesGrow(packets: seq<Packet>, m: nat, n: nat)
    requires m <= n <= |packets|
    ensures AllBytes(packets, m) <= AllBytes(packets, n)
  {
    if m < n {
      BytesGrow(packets, m, n - 1);
    }
  }

  lemma ExpectedBytes(cfg: Config, expected: seq<Packet>, yielded: seq<Packet>, data: seq<byte>)
    returns (rest: seq<byte>)
    requires Ahead(cfg, expected, yielded, data)
    ensures WellFormed(expected[|yielded|])
    ensures data == AllBytes(yielded, |yielded|) + (Bytes(expected[|yielded|]) + rest)
    ensures |AllBytes(yielded, |yielded|)| + |Bytes(expected[|yielded|])| <= |AllBytes(expected, |expected|)|
  {
    hide GoodPacket, FormatOk, WellFormed, Kind, AllBytes, Bytes;
    var n := |yielded|;
    assert GoodPacket(cfg, expected, n);
    WellFormedOf(cfg, expected, n);
    CountsStable(yielded, expected, n, 1);
    BytesNext(expected, n);
    BytesGrow(expected, n + 1, |expected|);
    rest := data[|AllBytes(expected, n + 1)|..];
    FrontOf(data, AllBytes(yielded, n), Bytes(expected[n]));
  }

  lemma BytesNext(packets: seq<Packet>, n: nat)
    requires n < |packets|
    ensures AllBytes(packets, n + 1) == AllBytes(packets, n) + Bytes(packets[n])
  {
  }

  lemma FrontOf(data: seq<byte>, a: seq<byte>, b: seq<byte>)
    requires a + b <= data
    ensures data == a + (b + data[|a + b|..])
  {
  }

  /** Where the bytes of one packet begin `rest`, its length is what is needed. */
  lemma NeededOf(p: Packet, rest: seq<byte>, after: seq<byte>)
    requires WellFormed(p) && rest == Bytes(p) + after
    ensures |rest| >= HEADER_SIZE && rest[..HEADER_SIZE] == p.header && GoodHeader(p.header)
    ensures Needed(rest) == |Bytes(p)| && NextPacket(rest) == p
  {
    hide GoodHeader, Unpack;
    assert rest == p.header + (p.payload + after);
  }

  /** What comes next in the data is what the expected stream has next. */
  lemma NextIsExpected(cfg: Config, expected: seq<Packet>, yielded: seq<Packet>, data: seq<byte>)
    requires Ahead(cfg, expected, yielded, data)
    ensures |AllBytes(yielded, |yielded|)| <= |data|
    ensures var rest := data[|AllBytes(yielded, |yielded|)|..];
      && |rest| >= HEADER_SIZE && GoodHeader(rest[..HEADER_SIZE]) && Needed(rest) <= |rest|
      && |AllBytes(yielded, |yielded|)| + Needed(rest) <= |AllBytes(expected, |expected|)|
      && NextPacket(rest) == expected[|yielded|]
    ensures GoodPrefix(cfg, yielded + [expected[|yielded|]], |yielded| + 1)
  {
    hide GoodPacket, GoodHeader, Unpack, FormatOk, AllBytes, GoodPrefix, Kind, Needed, WellFormed, Bytes;
    var n := |yielded|;
    var after := ExpectedBytes(cfg, expected, yielded, data);
    assert data[|AllBytes(yielded, n)|..] == Bytes(expected[n]) + after;
    NeededOf(expected[n], data[|AllBytes(yielded, n)|..], after);
    ExpectedPrefixGood(cfg, expected, yielded, data);
    assert yielded + [expected[n]] == expected[..n + 1];
  }

  lemma ExpectedPrefixGood(cfg: Config, expected: seq<Packet>, yielded: seq<Packet>, data: seq<byte>)
    requires Ahead(cfg, expected, yielded, data)
    ensures GoodPrefix(cfg, expected[..|yielded| + 1], |yielded| + 1)
  {
    hide GoodPacket, FormatOk, AllBytes;
    GoodPrefixStable(cfg, expected[..|yielded| + 1], expected, |yielded| + 1);
  }

  /** Unless the packet is the end marker, more of the stream is expected. */
  lemma StillAhead(cfg: Config, expected: seq<Packet>, yielded: seq<Packet>, data: seq<byte>)
    requires Ahead(cfg, expected, yielded, data)
    ensures var p := expected[|yielded|];
      if Kind(p) == 4 then yielded + [p] == expected else Ahead(cfg, expected, yielded + [p], data)
  {
    hide GoodPrefix, AllBytes;
    var p := expected[|yielded|];
    assert yielded + [p] == expected[..|yielded| + 1];
    if Kind(p) == 4 {
      assert expected[..|expected|] == expected;
    }
  }

  lemma WellFormedOf(cfg: Config, packets: seq<Packet>, i: nat)
    requires i < |packets| && FormatOk(cfg, packets[0].payload) && GoodPacket(cfg, packets, i)
    ensures WellFormed(packets[i])
  {
  }

  /** How many bytes the next packet needs, as far as `data` tells. */
  function Needed(data: seq<byte>): nat
  {
    if |data| >= HEADER_SIZE && GoodHeader(data[..HEADER_SIZE]) then HEADER_SIZE + Unpack(data[..HEADER_SIZE]).length
    else HEADER_SIZE
  }

  function NextPacket(data: seq<byte>): Packet
    requires |data| >= Needed(data)
  {
    Packet(data[..HEADER_SIZE], data[HEADER_SIZE..Needed(data)])
  }

  /** A transport error is due: the transport gave out, with too few useful replies or
      too few bytes for the next packet. */
  ghost predicate GaveOut(error: Error, usb: bool, before: seq<nat>, after: seq<nat>, data: seq<byte>, left: seq<byte>)
  {
    Excused(error, usb, before, after, left) && Min(|data|, Useful(usb, before)) < Needed(data)
  }

  lemma Parts(data: seq<byte>, header: seq<byte>, payload: seq<byte>, rest: seq<byte>)
    requires data == header + (payload + rest) && |header| == HEADER_SIZE
    ensures |data| >= HEADER_SIZE && data[..HEADER_SIZE] == header
    ensures GoodHeader(header) ==> Needed(data) == HEADER_SIZE + Unpack(header).length
    ensures data == Bytes(Packet(header, payload)) + rest
    ensures GoodHeader(header) && |payload| == Unpack(header).length ==>
              Needed(data) <= |data| && NextPacket(data) == Packet(header, payload)
  {
    hide GoodHeader, Unpack;
  }

  lemma SuffixTrans<T>(a: seq<T>, b: seq<T>, c: seq<T>)
    requires IsSuffix(a, b) && IsSuffix(b, c)
    ensures IsSuffix(a, c) && forall x :: x in b ==> x in c
  {
  }

  /** The next packet with a valid header. It is the one the data has next; a header is
      refused only when it is invalid. */
  method ReadPacket(source: LiveSource) returns (r: Result<Packet>)
    modifies source
    ensures source.ended == old(source.ended) && IsSuffix(source.replies, old(source.replies))
    ensures r.Ok? ==>
              && WellFormed(r.value) && old(source.data) == Bytes(r.value) + source.data
              && Needed(old(source.data)) <= |old(source.data)| && NextPacket(old(source.data)) == r.value
    ensures r.Ok? ==>
              Useful(source.usb, old(source.replies)) <= Useful(source.usb, source.replies) + |Bytes(r.value)|
    ensures r.Err? ==>
              if IsTransport(r.error)
              then GaveOut(r.error, source.usb, old(source.replies), source.replies, old(source.data), source.data)
              else && r.error.InvalidHeader? && |old(source.data)| >= HEADER_SIZE
                   && !GoodHeader(old(source.data)[..HEADER_SIZE])
  {
    hide IsSuffix, Arrives, GoodHeader, Unpack, Useful, Needed, NextPacket, Bytes;
    ghost var data := source.data;
    ghost var replies := source.replies;
    var head := source.ReadExact(HEADER_SIZE);
    if head.Err? {
      NeededAtLeast(data);
      return Err(head.error);
    }
    ghost var body, later := source.data, source.replies;
    Parts(data, head.value, [], body);
    if !GoodHeader(head.value) {
      return Err(InvalidHeader);
    }
    var payload := source.ReadExact(Unpack(head.value).length);
    SuffixTrans(source.replies, later, replies);
    if payload.Err? {
      return Err(payload.error);
    }
    Parts(data, head.value, payload.value, source.data);
    r := Ok(Packet(head.value, payload.value));
    BytesLength(r.value);
  }

  lemma BytesLength(p: Packet)
    ensures |Bytes(p)| == |p.header| + |p.payload|
  {
  }

  lemma NeededAtLeast(data: seq<byte>)
    ensures Needed(data) >= HEADER_SIZE
  {
  }

  ghost predicate Refuses(cfg: Config, s: State, p: Packet, error: Error)
  {
    s.audioBytes > 0 && |p.header| == HEADER_SIZE && Check(cfg, s, Unpack(p.header), p.payload) == Err(error)
  }

  /** Why the generator stopped with a protocol error: the next header is invalid, or
      the next packet is refused and no good prefix can go on with it. */
  ghost predicate Justified(cfg: Config, yielded: seq<Packet>, rest: seq<byte>, error: Error)
  {
    if error.InvalidHeader? && |rest| >= HEADER_SIZE && !GoodHeader(rest[..HEADER_SIZE]) then true
    else
      && Needed(rest) <= |rest| && (|yielded| > 0 ==> FormatOk(cfg, yielded[0].payload))
      && Refuses(cfg, StateAfter(cfg, yielded, |yielded|), NextPacket(rest), error)
      && !GoodPrefix(cfg, yielded + [NextPacket(rest)], |yielded| + 1)
  }

  /** The generator `packets`. What it yields is a good prefix and re-serialises to
      exactly the bytes consumed. It ends well exactly behind an end marker, with a
      protocol error only where the data goes on with no good packet, and otherwise only
      because the transport gave out. If the data starts with a complete stream
      `expected`, that is what is yielded, however the replies cut it up, provided there
      are as many useful ones as bytes. */
  method Packets(source: LiveSource, cfg: Config, ghost expected: seq<Packet>)
    returns (yielded: seq<Packet>, r: Result<()>)
    modifies source
    ensures GoodPrefix(cfg, yielded, |yielded|) && AllBytes(yielded, |yielded|) <= old(source.data)
    ensures r.Ok? ==>
              && Complete(cfg, yielded) && source.ended
              && old(source.data) == AllBytes(yielded, |yielded|) + source.data
    ensures r.Err? ==>
              var rest := old(source.data)[|AllBytes(yielded, |yielded|)|..];
              var replies := old(source.replies);
              if IsTransport(r.error) then
                && Excused(r.error, source.usb, replies, source.replies, source.data)
                && (|rest| < Needed(rest) ||
                    Useful(source.usb, replies) < |AllBytes(yielded, |yielded|)| + Needed(rest))
              else Justified(cfg, yielded, rest, r.error)
    ensures Complete(cfg, expected) && AllBytes(expected, |expected|) <= old(source.data) ==>
              if r.Err? then IsTransport(r.error) && yielded < expected else yielded == expected
    ensures Complete(cfg, expected) && AllBytes(expected, |expected|) <= old(source.data) &&
            Useful(source.usb, old(source.replies)) >= |AllBytes(expected, |expected|)| ==>
              r.Ok? && yielded == expected
  {
    hide GoodPrefix, WellFormed, GoodHeader, Check, StateAfter, Unpack, AllBytes, Ahead, FormatOk, Needed, NextPacket;
    hide IsSuffix, Useful, Bytes, Complete, Justified;
    yielded := [];
    var s := FRESH;
    ghost var data, replies := source.data, source.replies;
    Start(cfg, expected, data, replies);
    while true
      invariant GoodPrefix(cfg, yielded, |yielded|) && s.audioBytes > 0
      invariant |yielded| > 0 ==> FormatOk(cfg, yielded[0].payload)
      invariant s == StateAfter(cfg, yielded, |yielded|)
      invariant forall i :: 0 <= i < |yielded| ==> Kind(yielded[i]) != 4
      invariant data == AllBytes(yielded, |yielded|) + source.data
      invariant IsSuffix(source.replies, replies)
      invariant Useful(source.usb, replies) <= Useful(source.usb, source.replies) + |AllBytes(yielded, |yielded|)|
      invariant Complete(cfg, expected) && AllBytes(expected, |expected|) <= data ==>
                  Ahead(cfg, expected, yielded, data)
      decreases |source.data|
    {
      ghost var before, beforeReplies := source.data, source.replies;
      assert before == data[|AllBytes(yielded, |yielded|)|..];
      var next := ReadPacket(source);
      SuffixTrans(source.replies, beforeReplies, replies);
      AheadIsProper(cfg, expected, yielded, data);
      if Ahead(cfg, expected, yielded, data) {
        NextIsExpected(cfg, expected, yielded, data);
        StillAhead(cfg, expected, yielded, data);
      }
      if next.Err? {
        HeaderFault(cfg, yielded, before, next.error);
        return yielded, Err(next.error);
      }
      var p := next.value;
      WellFormedParts(p);
      CheckExactly(cfg, yielded, p);
      CheckKeepsAudioBytes(cfg, s, Unpack(p.header), p.payload);
      var checked := Check(cfg, s, Unpack(p.header), p.payload);
      if checked.Err? {
        PacketFault(cfg, yielded, before, checked.error);
        return yielded, Err(checked.error);
      }
      s := checked.value;
      MoreBytes(yielded, p);
      yielded := yielded + [p];
      if p.header[0] == 4 {
        source.ended := true;
        EndsStream(cfg, yielded);
        return yielded, Ok(());
      }
    }
  }

  lemma HeaderFault(cfg: Config, yielded: seq<Packet>, rest: seq<byte>, error: Error)
    ensures error.InvalidHeader? && |rest| >= HEADER_SIZE && !GoodHeader(rest[..HEADER_SIZE]) ==>
              Justified(cfg, yielded, rest, error)
  {
  }

  lemma PacketFault(cfg: Config, yielded: seq<Packet>, rest: seq<byte>, error: Error)
    requires Needed(rest) <= |rest| && (|yielded| > 0 ==> FormatOk(cfg, yielded[0].payload))
    requires Refuses(cfg, StateAfter(cfg, yielded, |yielded|), NextPacket(rest), error)
    requires !GoodPrefix(cfg, yielded + [NextPacket(rest)], |yielded| + 1)
    ensures Justified(cfg, yielded, rest, error)
  {
  }

  lemma EndsStream(cfg: Config, yielded: seq<Packet>)
    requires yielded != [] && GoodPrefix(cfg, yielded, |yielded|)
    requires forall i :: 0 <= i < |yielded| ==> (Kind(yielded[i]) == 4 <==> i == |yielded| - 1)
    ensures Complete(cfg, yielded)
  {
    hide GoodPrefix, Kind;
  }

  lemma WellFormedParts(p: Packet)
    requires WellFormed(p)
    ensures |p.header| == HEADER_SIZE && |p.payload| == Unpack(p.header).length && |Bytes(p)| >= HEADER_SIZE
  {
  }

  lemma AheadIsProper(cfg: Config, expected: seq<Packet>, yielded: seq<Packet>, data: seq<byte>)
    ensures Ahead(cfg, expected, yielded, data) ==> yielded < expected
  {
  }

  lemma MoreBytes(packets: seq<Packet>, p: Packet)
    ensures AllBytes(packets + [p], |packets| + 1) == AllBytes(packets, |packets|) + Bytes(p)
  {
    CountsStable(packets, packets + [p], |packets|, 1);
  }

  lemma Start(cfg: Config, expected: seq<Packet>, data: seq<byte>, replies: seq<nat>)
    ensures IsSuffix(replies, replies)
    ensures GoodPrefix(cfg, [], 0) && StateAfter(cfg, [], 0) == FRESH && AllBytes([], 0) == []
    ensures Complete(cfg, expected) && AllBytes(expected, |expected|) <= data ==> Ahead(cfg, expected, [], data)
  {
  }

  // --------------------------------------------------------- what a stream carries

  function ToBigEndian(value: nat, width: nat): (r: seq<byte>)
    ensures |r| == width
  {
    if width == 0 then [] else ToBigEndian(value / 256, width - 1) + [value % 256]
  }

  lemma {:induction false} BigEndianRoundTrip(s: seq<byte>)
    ensures ToBigEndian(BigEndian(s), |s|) == s
  {
    if s != [] {
      var front, last := s[..|s| - 1], s[|s| - 1];
      BigEndianRoundTrip(front);
      assert BigEndian(s) / 256 == BigEndian(front) && BigEndian(s) % 256 == last;
    }
  }

  function Pack(f: Fields): seq<byte>
  {
    [f.kind, 0, 0, 0] + ToBigEndian(f.sequence, 4) + ToBigEndian(f.timestamp, 8) + ToBigEndian(f.length, 4)
  }

  /** The fields of an accepted header are all there is to it. */
  lemma HeaderRoundTrip(h: seq<byte>)
    requires |h| == HEADER_SIZE && GoodHeader(h)
    ensures Pack(Unpack(h)) == h
  {
    hide BigEndian, ToBigEndian;
    BigEndianRoundTrip(h[4..8]);
    BigEndianRoundTrip(h[8..16]);
    BigEndianRoundTrip(h[16..20]);
    assert h == h[..4] + h[4..8] + h[8..16] + h[16..20];
    assert h[..4] == [h[0], 0, 0, 0];
  }

  /** Audio blocks cover whole payloads, so nothing is lost in counting them. */
  lemma {:induction false} AudioCounted(packets: seq<Packet>, n: nat, audioBytes: nat)
    requires n <= |packets| && (audioBytes == 640 || audioBytes == 1920)
    requires forall i :: 0 <= i < n && Kind(packets[i]) == 2 ==> |packets[i].payload| % audioBytes == 0
    ensures AudioSamples(packets, n) == AudioBlocks(packets, n, audioBytes) * (audioBytes / 2)
  {
    hide Kind;
    if n > 0 {
      AudioCounted(packets, n - 1, audioBytes);
      var length := |packets[n - 1].payload|;
      if Kind(packets[n - 1]) == 2 {
        hide Kind;
        WholeBlocks(length, audioBytes);
        Distribute(AudioBlocks(packets, n - 1, audioBytes), length / audioBytes, audioBytes / 2);
      }
    }
  }

  lemma Distribute(a: nat, b: nat, k: nat)
    ensures (a + b) * k == a * k + b * k
  {
  }

  lemma AudioWhole(cfg: Config, packets: seq<Packet>, i: nat)
    requires i < |packets| && FormatOk(cfg, packets[0].payload) && GoodPacket(cfg, packets, i)
    requires Kind(packets[i]) == 2
    ensures |packets[i].payload| % Configured(cfg, packets[0].payload).audioBytes == 0
  {
  }

  lemma WholeBlocks(length: nat, audioBytes: nat)
    requires (audioBytes == 640 || audioBytes == 1920) && length % audioBytes == 0
    ensures length / 2 == length / audioBytes * (audioBytes / 2)
  {
    if audioBytes == 640 {
      assert length == length / 640 * 640;
    } else {
      assert length == length / 1920 * 1920;
    }
  }

  function AudioSamples(packets: seq<Packet>, n: nat): nat
    requires n <= |packets|
  {
    if n == 0 then 0
    else AudioSamples(packets, n - 1) + if Kind(packets[n - 1]) == 2 then |packets[n - 1].payload| / 2 else 0
  }

  /** The counting loop of `check_stream`. */
  method CountMedia(packets: seq<Packet>) returns (frames: nat, samples: nat)
    ensures frames == Videos(packets, |packets|) && samples == AudioSamples(packets, |packets|)
  {
    frames, samples := 0, 0;
    for i := 0 to |packets|
      invariant frames == Videos(packets, i) && samples == AudioSamples(packets, i)
    {
      var kind := Kind(packets[i]);
      if kind == 1 {
        frames := frames + 1;
      } else if kind == 2 {
        samples := samples + |packets[i].payload| / 2;
      }
    }
  }

  /** Packets `i` and `j` are of the same kind and no packet between them is. */
  predicate Consecutive(packets: seq<Packet>, kind: byte, i: nat, j: nat)
  {
    && i < j < |packets| && Kind(packets[i]) == kind && Kind(packets[j]) == kind
    && forall k :: i < k < j ==> Kind(packets[k]) != kind
  }

  lemma {:induction false} CountsBetween(packets: seq<Packet>, i: nat, j: nat, audioBytes: nat)
    requires i <= j <= |packets| && audioBytes > 0
    ensures (forall k :: i <= k < j ==> Kind(packets[k]) != 1) ==> Videos(packets, j) == Videos(packets, i)
    ensures (forall k :: i <= k < j ==> Kind(packets[k]) != 2) ==>
              AudioBlocks(packets, j, audioBytes) == AudioBlocks(packets, i, audioBytes)
    decreases j
  {
    hide Kind;
    if i < j {
      CountsBetween(packets, i, j - 1, audioBytes);
    }
  }

  function SequenceOf(p: Packet): nat { if |p.header| == HEADER_SIZE then Unpack(p.header).sequence else 0 }

  function TimeOf(p: Packet): nat { if |p.header| == HEADER_SIZE then Unpack(p.header).timestamp else 0 }

  /** In every good prefix, complete or not, a camera frame's number is the count of those
      before it, and an audio packet's the count of 20 ms blocks before it, its time stamp
      20000 times that. */
  lemma StreamNumbering(cfg: Config, packets: seq<Packet>, n: nat, i: nat)
    requires i < n <= |packets| && GoodPrefix(cfg, packets, n)
    ensures WellFormed(packets[i]) && FormatOk(cfg, packets[0].payload)
    ensures var h := Unpack(packets[i].header); var rate := SampleRate(cfg, packets);
      && (h.kind == 1 ==> h.sequence == Videos(packets, i))
      && (h.kind == 2 ==> h.sequence == AudioBlocks(packets, i, rate / 50 * 2) && h.timestamp == 20000 * h.sequence)
  {
    hide BigEndian, Jpeg.Walk;
    assert GoodPacket(cfg, packets, i);
  }

  /** In every good prefix the camera frames are numbered 0, 1, 2, ... */
  lemma VideoNumbering(cfg: Config, packets: seq<Packet>, i: nat, j: nat)
    requires GoodPrefix(cfg, packets, |packets|) && Consecutive(packets, 1, i, j)
    ensures SequenceOf(packets[j]) == SequenceOf(packets[i]) + 1
    ensures (forall k :: 0 <= k < i ==> Kind(packets[k]) != 1) ==> SequenceOf(packets[i]) == 0
  {
    hide FormatOk, ImageOk, BigEndian, AudioBlocks;
    assert GoodPacket(cfg, packets, i) && GoodPacket(cfg, packets, j);
    CountsBetween(packets, i + 1, j, 1);
    CountsBetween(packets, 0, i, 1);
    assert Videos(packets, 0) == 0 && Videos(packets, i + 1) == Videos(packets, i) + 1;
  }

  /** And the audio packets abut: each begins, in blocks of 20 ms and in microseconds,
      where the one before it ends, the first at zero. */
  lemma AudioAbuts(cfg: Config, packets: seq<Packet>, i: nat, j: nat)
    requires GoodPrefix(cfg, packets, |packets|) && Consecutive(packets, 2, i, j)
    ensures FormatOk(cfg, packets[0].payload)
    ensures var blocks := |packets[i].payload| / (SampleRate(cfg, packets) / 50 * 2);
      && SequenceOf(packets[j]) == SequenceOf(packets[i]) + blocks
      && TimeOf(packets[j]) == TimeOf(packets[i]) + 20000 * blocks
    ensures (forall k :: 0 <= k < i ==> Kind(packets[k]) != 2) ==>
              SequenceOf(packets[i]) == 0 && TimeOf(packets[i]) == 0
  {
    hide FormatOk, ImageOk, BigEndian, Videos, Configured, SampleRate;
    assert GoodPacket(cfg, packets, i) && GoodPacket(cfg, packets, j);
    BlockBytes(cfg, packets);
    var audioBytes := Configured(cfg, packets[0].payload).audioBytes;
    CountsBetween(packets, i + 1, j, audioBytes);
    CountsBetween(packets, 0, i, audioBytes);
    assert AudioBlocks(packets, 0, audioBytes) == 0;
    assert AudioBlocks(packets, i + 1, audioBytes) ==
           AudioBlocks(packets, i, audioBytes) + |packets[i].payload| / audioBytes;
  }

  function SampleRate(cfg: Config, packets: seq<Packet>): (r: nat)
    requires packets != [] && FormatOk(cfg, packets[0].payload)
    ensures r == 16000 || r == 48000
  {
    cfg.json(packets[0].payload).value.format.value.sampleRate
  }

  lemma BlockBytes(cfg: Config, packets: seq<Packet>)
    requires packets != [] && FormatOk(cfg, packets[0].payload)
    ensures var audioBytes, rate := Configured(cfg, packets[0].payload).audioBytes, SampleRate(cfg, packets);
      && audioBytes == rate / 50 * 2 && audioBytes / 2 == rate / 50 && (audioBytes == 640 || audioBytes == 1920)
  {
  }

  /** The samples counted are the audio blocks times rate/50, also of an interrupted
      stream. */
  lemma SamplesMatchBlocks(cfg: Config, packets: seq<Packet>)
    requires GoodPrefix(cfg, packets, |packets|) && packets != []
    ensures FormatOk(cfg, packets[0].payload)
    ensures var rate := SampleRate(cfg, packets);
      AudioSamples(packets, |packets|) == AudioBlocks(packets, |packets|, rate / 50 * 2) * (rate / 50)
  {
    hide GoodPacket, FormatOk, Configured, SampleRate, Kind;
    BlockBytes(cfg, packets);
    var audioBytes := Configured(cfg, packets[0].payload).audioBytes;
    forall i | 0 <= i < |packets| && Kind(packets[i]) == 2
      ensures |packets[i].payload| % audioBytes == 0
    {
      assert GoodPacket(cfg, packets, i);
      AudioWhole(cfg, packets, i);
    }
    AudioCounted(packets, |packets|, audioBytes);
  }
}
