/** Image and EPUB uploads: announced streams whose frames are appended in
    order, finished by a request that may have to wait for them. */
module Uploads {
  import opened Wrappers
  import opened Wire

  const MAX_IMAGE := 32 * 1024 * 1024
  const MAX_EBOOK := 64 * 1024 * 1024
  const UPLOAD_CHUNK := 64 * 1024

  datatype Upload = Upload(expectedSize: nat, sequence: u32, bytes: seq<byte>, failed: bool, finishing: bool)

  /** The entries being uploaded, and for each the frames that reached it. */
  datatype Table = Table(entries: map<u32, Upload>, log: map<u32, seq<seq<byte>>>)

  function Payload(frame: seq<byte>): seq<byte> { if |frame| < HEADER_BYTES then [] else frame[HEADER_BYTES..] }

  /** One frame arrives for an entry: the counter advances even when the frame
      is refused, and a frame after a refused one may still be appended. */
  function OnFrame(u: Upload, h: Header, frame: seq<byte>): (r: Upload)
    ensures r.expectedSize == u.expectedSize && r.finishing == u.finishing && (u.failed ==> r.failed)
  {
    var next := u.(sequence := Wrap(u.sequence + 1));
    if h.sequence != u.sequence || h.rate != 0 || h.length != |frame| - HEADER_BYTES ||
       |u.bytes| + h.length > u.expectedSize
    then next.(failed := true)
    else next.(bytes := u.bytes + Payload(frame))
  }

  function Fed(t: Table, h: Header, frame: seq<byte>): Table
  {
    if h.stream !in t.entries then t
    else Table(t.entries[h.stream := OnFrame(t.entries[h.stream], h, frame)],
               t.log[h.stream := (if h.stream in t.log then t.log[h.stream] else []) + [frame]])
  }

  function Opened(t: Table, stream: u32, size: nat): Table
  {
    Table(t.entries[stream := Upload(size, 0, [], false, false)], t.log[stream := []])
  }

  function Erased(t: Table, stream: u32): Table
  {
    Table(t.entries - {stream}, t.log - {stream})
  }

  datatype State = State(images: Table, stored: map<u32, seq<byte>>, ebooks: Table, waiting: set<u32>)

  const INITIAL := State(Table(map[], map[]), map[], Table(map[], map[]), {})

  datatype Event =
    | Binary(frame: seq<byte>)
    | StartImage(stream: u32, size: nat, contentType: string, busy: bool)
    | FinishImage(stream: u32, stored: bool)
    | ClearImages
    | StartEbook(stream: u32, size: nat)
    | BeginFinish(stream: u32)
    | EndFinish(stream: u32)

  datatype Reply = Quiet | Accepted | Refused | Delivered(bytes: seq<byte>)

  predicate ImageAllowed(s: State, stream: u32, size: nat, contentType: string, busy: bool)
  {
    && !busy && 0 < size <= MAX_IMAGE && (contentType == "image/jpeg" || contentType == "image/png")
    && stream !in s.images.entries && stream !in s.stored
  }

  predicate EbookAllowed(s: State, stream: u32, size: nat)
  {
    0 < size <= MAX_EBOOK && stream !in s.ebooks.entries
  }

  predicate Complete(u: Upload) { |u.bytes| == u.expectedSize }

  function OnBinary(s: State, frame: seq<byte>): State
  {
    match ParseHeader(frame)
    case None => s
    case Some(h) =>
      if h.kind == IMAGE_INPUT then s.(images := Fed(s.images, h, frame))
      else if h.kind == EBOOK_INPUT then s.(ebooks := Fed(s.ebooks, h, frame))
      else s
  }

  /** `EndFinish` is the finishing request waking up: because of an error, of
      completion, or after five seconds, at any moment from here on. */
  function Apply(s: State, e: Event): State
  {
    match e
    case Binary(frame) => OnBinary(s, frame)
    case StartImage(stream, size, contentType, busy) =>
      if ImageAllowed(s, stream, size, contentType, busy) then s.(images := Opened(s.images, stream, size)) else s
    case FinishImage(stream, stored) =>
      if stream !in s.images.entries then s
      else
        var u := s.images.entries[stream];
        if u.failed then s.(images := Erased(s.images, stream))
        else if !Complete(u) || !stored then s
        else s.(images := Erased(s.images, stream), stored := s.stored[stream := u.bytes])
    case ClearImages => s.(images := Table(map[], map[]), stored := map[])
    case StartEbook(stream, size) =>
      if EbookAllowed(s, stream, size) then s.(ebooks := Opened(s.ebooks, stream, size)) else s
    case BeginFinish(stream) =>
      if stream !in s.ebooks.entries || s.ebooks.entries[stream].finishing then s
      else s.(ebooks := s.ebooks.(entries := s.ebooks.entries[stream := s.ebooks.entries[stream].(finishing := true)]),
              waiting := s.waiting + {stream})
    case EndFinish(stream) =>
      if stream in s.waiting then s.(ebooks := Erased(s.ebooks, stream), waiting := s.waiting - {stream}) else s
  }

  function ReplyTo(s: State, e: Event): Reply
  {
    match e
    case Binary(_) => Quiet
    case StartImage(stream, size, contentType, busy) =>
      if ImageAllowed(s, stream, size, contentType, busy) then Accepted else Refused
    case FinishImage(stream, stored) =>
      if stream in s.images.entries && !s.images.entries[stream].failed && Complete(s.images.entries[stream]) && stored
      then Delivered(s.images.entries[stream].bytes) else Refused
    case ClearImages => Quiet
    case StartEbook(stream, size) => if EbookAllowed(s, stream, size) then Accepted else Refused
    case BeginFinish(stream) =>
      if stream !in s.ebooks.entries || s.ebooks.entries[stream].finishing then Refused else Quiet
    case EndFinish(stream) =>
      if stream !in s.waiting || stream !in s.ebooks.entries then Quiet
      else if s.ebooks.entries[stream].failed || !Complete(s.ebooks.entries[stream]) then Refused
      else Delivered(s.ebooks.entries[stream].bytes)
  }

  function Run(events: seq<Event>, n: nat): State
    requires n <= |events|
  {
    if n == 0 then INITIAL else Apply(Run(events, n - 1), events[n - 1])
  }

  // ------------------------------------------------------------ what it keeps

  predicate IsUploadFrame(frame: seq<byte>, sequence: u32)
  {
    var h := ParseHeader(frame);
    h.Some? && h.value.sequence == sequence && h.value.rate == 0 && h.value.length == |frame| - HEADER_BYTES
  }

  /** The first `n` frames are well formed and number themselves without a gap. */
  predicate InOrder(frames: seq<seq<byte>>, n: nat)
    requires n <= |frames|
  {
    forall i :: 0 <= i < n ==> IsUploadFrame(frames[i], Wrap(i))
  }

  function Payloads(frames: seq<seq<byte>>, n: nat): seq<byte>
    requires n <= |frames|
  {
    if n == 0 then [] else Payloads(frames, n - 1) + Payload(frames[n - 1])
  }

  function Carried(log: seq<seq<byte>>): seq<byte> { Payloads(log, |log|) }

  predicate WithinSize(log: seq<seq<byte>>, size: nat) { InOrder(log, |log|) && |Carried(log)| <= size }

  predicate ExactSize(log: seq<seq<byte>>, size: nat) { InOrder(log, |log|) && |Carried(log)| == size }

  lemma {:induction false} PayloadsStable(frames: seq<seq<byte>>, more: seq<seq<byte>>, n: nat)
    requires n <= |frames| && frames <= more
    ensures Payloads(frames, n) == Payloads(more, n)
  {
    if n > 0 {
      PayloadsStable(frames, more, n - 1);
    }
  }

  /** The entry that the first `n` frames of `log` make of a new one. */
  function Replay(size: nat, log: seq<seq<byte>>, n: nat): Upload
    requires n <= |log|
  {
    if n == 0 then Upload(size, 0, [], false, false)
    else
      var h := ParseHeader(log[n - 1]);
      if h.None? then Replay(size, log, n - 1) else OnFrame(Replay(size, log, n - 1), h.value, log[n - 1])
  }

  lemma {:induction false} ReplayStable(size: nat, log: seq<seq<byte>>, more: seq<seq<byte>>, n: nat)
    requires n <= |log| && log <= more
    ensures Replay(size, log, n) == Replay(size, more, n)
  {
    hide ParseHeader;
    if n > 0 {
      ReplayStable(size, log, more, n - 1);
    }
  }

  /** An entry has failed exactly when its frames are not in order or carry too
      much, and otherwise holds what they carry. */
  lemma {:induction false} ReplayExactly(size: nat, log: seq<seq<byte>>, n: nat)
    requires n <= |log| && forall i :: 0 <= i < n ==> ParseHeader(log[i]).Some?
    ensures var u := Replay(size, log, n);
      && u.expectedSize == size && u.sequence == Wrap(n) && |u.bytes| <= size && !u.finishing
      && (u.failed <==> !(InOrder(log, n) && |Payloads(log, n)| <= size))
      && (!u.failed ==> u.bytes == Payloads(log, n))
  {
    hide ParseHeader;
    if n > 0 {
      hide Payload, Payloads, IsUploadFrame;
      ReplayExactly(size, log, n - 1);
      InOrderStep(log, n);
      ReplayStep(size, log, n, InOrder(log, n - 1), Payloads(log, n - 1));
      assert Payloads(log, n) == Payloads(log, n - 1) + Payload(log[n - 1]);
    }
  }

  lemma InOrderStep(log: seq<seq<byte>>, n: nat)
    requires 0 < n <= |log|
    ensures InOrder(log, n) <==> InOrder(log, n - 1) && IsUploadFrame(log[n - 1], Wrap(n - 1))
  {
    hide ParseHeader;
  }

  lemma ReplayStep(size: nat, log: seq<seq<byte>>, n: nat, inOrder: bool, carried: seq<byte>)
    requires 0 < n <= |log| && ParseHeader(log[n - 1]).Some?
    requires var u := Replay(size, log, n - 1);
      && u.expectedSize == size && u.sequence == Wrap(n - 1) && |u.bytes| <= size && !u.finishing
      && (u.failed <==> !(inOrder && |carried| <= size))
      && (!u.failed ==> u.bytes == carried)
    ensures var u := Replay(size, log, n);
      && u.expectedSize == size && u.sequence == Wrap(n) && |u.bytes| <= size && !u.finishing
      && (u.failed <==> !(inOrder && IsUploadFrame(log[n - 1], Wrap(n - 1)) &&
                          |carried + Payload(log[n - 1])| <= size))
      && (!u.failed ==> u.bytes == carried + Payload(log[n - 1]))
  {
    hide ParseHeader;
    WrapNext(n - 1);
    FrameStep(Replay(size, log, n - 1), ParseHeader(log[n - 1]).value, log[n - 1], inOrder, carried);
  }

  lemma FrameStep(u: Upload, h: Header, frame: seq<byte>, inOrder: bool, carried: seq<byte>)
    requires ParseHeader(frame) == Some(h) && |u.bytes| <= u.expectedSize
    requires u.failed <==> !(inOrder && |carried| <= u.expectedSize)
    requires !u.failed ==> u.bytes == carried
    ensures var next := OnFrame(u, h, frame);
      && |next.bytes| <= u.expectedSize
      && (next.failed <==> !(inOrder && IsUploadFrame(frame, u.sequence) &&
                             |carried + Payload(frame)| <= u.expectedSize))
      && (!next.failed ==> next.bytes == carried + Payload(frame))
  {
  }

  ghost predicate EntryInv(u: Upload, log: seq<seq<byte>>, limit: nat)
  {
    && u.expectedSize <= limit
    && u == Replay(u.expectedSize, log, |log|).(finishing := u.finishing)
    && forall i :: 0 <= i < |log| ==> ParseHeader(log[i]).Some?
  }

  ghost predicate TableInv(t: Table, limit: nat)
  {
    && t.log.Keys == t.entries.Keys
    && forall stream :: stream in t.entries ==> EntryInv(t.entries[stream], t.log[stream], limit)
  }

  ghost predicate Inv(s: State)
  {
    && TableInv(s.images, MAX_IMAGE) && TableInv(s.ebooks, MAX_EBOOK)
    && (forall stream :: stream in s.waiting <==> stream in s.ebooks.entries && s.ebooks.entries[stream].finishing)
    && (forall stream :: stream in s.stored ==> stream !in s.images.entries)
  }

  lemma FrameKeepsEntry(u: Upload, log: seq<seq<byte>>, h: Header, frame: seq<byte>, limit: nat)
    requires EntryInv(u, log, limit) && ParseHeader(frame) == Some(h)
    ensures EntryInv(OnFrame(u, h, frame), log + [frame], limit)
  {
    hide ParseHeader;
    ReplayStable(u.expectedSize, log, log + [frame], |log|);
  }

  /** What the invariant says of one entry. */
  lemma EntryMeans(u: Upload, log: seq<seq<byte>>, limit: nat)
    requires EntryInv(u, log, limit)
    ensures u.failed <==> !WithinSize(log, u.expectedSize)
    ensures !u.failed ==> u.bytes == Carried(log)
    ensures !u.failed && Complete(u) <==> ExactSize(log, u.expectedSize)
  {
    hide ParseHeader, Replay, Payloads, InOrder;
    ReplayExactly(u.expectedSize, log, |log|);
  }

  lemma ImageEntry(s: State, stream: u32)
    requires Inv(s) && stream in s.images.entries
    ensures stream in s.images.log && EntryInv(s.images.entries[stream], s.images.log[stream], MAX_IMAGE)
  {
    hide EntryInv;
  }

  lemma EbookEntry(s: State, stream: u32)
    requires Inv(s) && (stream in s.ebooks.entries || stream in s.waiting)
    ensures stream in s.ebooks.entries && stream in s.ebooks.log
    ensures EntryInv(s.ebooks.entries[stream], s.ebooks.log[stream], MAX_EBOOK)
  {
    hide EntryInv;
  }

  lemma FedKeepsTable(t: Table, h: Header, frame: seq<byte>, limit: nat)
    requires TableInv(t, limit) && ParseHeader(frame) == Some(h)
    ensures TableInv(Fed(t, h, frame), limit)
  {
    hide ParseHeader, OnFrame;
    if h.stream in t.entries {
      FrameKeepsEntry(t.entries[h.stream], t.log[h.stream], h, frame, limit);
    }
  }

  lemma OpenedKeepsTable(t: Table, stream: u32, size: nat, limit: nat)
    requires TableInv(t, limit) && size <= limit
    ensures TableInv(Opened(t, stream, size), limit)
  {
    hide ParseHeader;
  }

  lemma ErasedKeepsTable(t: Table, stream: u32, limit: nat)
    requires TableInv(t, limit)
    ensures TableInv(Erased(t, stream), limit)
  {
    hide ParseHeader;
  }

  lemma BinaryKeepsInv(s: State, frame: seq<byte>)
    requires Inv(s)
    ensures Inv(Apply(s, Binary(frame)))
  {
    hide ParseHeader, OnFrame, EntryInv;
    var h := ParseHeader(frame);
    if h.Some? && h.value.kind == IMAGE_INPUT {
      FedKeepsTable(s.images, h.value, frame, MAX_IMAGE);
    } else if h.Some? && h.value.kind == EBOOK_INPUT {
      FedKeepsTable(s.ebooks, h.value, frame, MAX_EBOOK);
    }
  }

  lemma ImageStepKeepsInv(s: State, e: Event)
    requires Inv(s) && (e.StartImage? || e.FinishImage? || e.ClearImages?)
    ensures Inv(Apply(s, e))
  {
    hide ParseHeader, EntryInv;
    if e.StartImage? && e.size <= MAX_IMAGE {
      OpenedKeepsTable(s.images, e.stream, e.size, MAX_IMAGE);
    } else if e.FinishImage? {
      ErasedKeepsTable(s.images, e.stream, MAX_IMAGE);
    }
  }

  lemma EbookStepKeepsInv(s: State, e: Event)
    requires Inv(s) && (e.StartEbook? || e.EndFinish?)
    ensures Inv(Apply(s, e))
  {
    hide ParseHeader, EntryInv;
    if e.StartEbook? && e.size <= MAX_EBOOK {
      OpenedKeepsTable(s.ebooks, e.stream, e.size, MAX_EBOOK);
    } else if e.EndFinish? {
      ErasedKeepsTable(s.ebooks, e.stream, MAX_EBOOK);
    }
  }

  lemma BeginFinishKeepsInv(s: State, stream: u32)
    requires Inv(s)
    ensures Inv(Apply(s, BeginFinish(stream)))
  {
    hide ParseHeader, Replay;
    var next := Apply(s, BeginFinish(stream));
    forall k | k in next.ebooks.entries
      ensures k in next.ebooks.log && EntryInv(next.ebooks.entries[k], next.ebooks.log[k], MAX_EBOOK)
    {
      assert EntryInv(s.ebooks.entries[k], s.ebooks.log[k], MAX_EBOOK);
    }
  }

  lemma ApplyKeepsInv(s: State, e: Event)
    requires Inv(s)
    ensures Inv(Apply(s, e))
  {
    hide Apply, Inv;
    if e.Binary? {
      BinaryKeepsInv(s, e.frame);
    } else if e.BeginFinish? {
      BeginFinishKeepsInv(s, e.stream);
    } else if e.StartEbook? || e.EndFinish? {
      EbookStepKeepsInv(s, e);
    } else {
      ImageStepKeepsInv(s, e);
    }
  }

  lemma {:induction false} RunKeepsInv(events: seq<Event>, n: nat)
    requires n <= |events|
    ensures Inv(Run(events, n))
  {
    hide Apply;
    if n > 0 {
      RunKeepsInv(events, n - 1);
      ApplyKeepsInv(Run(events, n - 1), events[n - 1]);
    }
  }

  /** Stored bytes never exceed the announced size, nor that the limit. */
  lemma StorageBounded(events: seq<Event>, n: nat, stream: u32)
    requires n <= |events|
    ensures var s := Run(events, n);
      && (stream in s.images.entries ==>
            |s.images.entries[stream].bytes| <= s.images.entries[stream].expectedSize <= MAX_IMAGE)
      && (stream in s.ebooks.entries ==>
            |s.ebooks.entries[stream].bytes| <= s.ebooks.entries[stream].expectedSize <= MAX_EBOOK)
  {
    hide ParseHeader, Run, InOrder, Payloads, Replay;
    RunKeepsInv(events, n);
    var s := Run(events, n);
    if stream in s.images.entries {
      ReplayExactly(s.images.entries[stream].expectedSize, s.images.log[stream], |s.images.log[stream]|);
    }
    if stream in s.ebooks.entries {
      ReplayExactly(s.ebooks.entries[stream].expectedSize, s.ebooks.log[stream], |s.ebooks.log[stream]|);
    }
  }

  /** In any interleaving, the finishing request of an EPUB delivers exactly when
      the frames its stream received are in order and carry the announced size,
      and then it delivers what they carry. */
  lemma EbookDeliveredExactly(events: seq<Event>, n: nat, stream: u32)
    requires n <= |events|
    requires stream in Run(events, n).waiting
    ensures var s := Run(events, n);
      && stream in s.ebooks.entries && stream in s.ebooks.log
      && var log := s.ebooks.log[stream];
      && (ReplyTo(s, EndFinish(stream)).Delivered? <==>
            InOrder(log, |log|) && |Payloads(log, |log|)| == s.ebooks.entries[stream].expectedSize)
      && (ReplyTo(s, EndFinish(stream)).Delivered? ==>
            ReplyTo(s, EndFinish(stream)).bytes == Payloads(log, |log|))
  {
    hide ParseHeader, Run, InOrder, Payloads, Replay;
    RunKeepsInv(events, n);
    var s := Run(events, n);
    ReplayExactly(s.ebooks.entries[stream].expectedSize, s.ebooks.log[stream], |s.ebooks.log[stream]|);
  }

  lemma ImageDeliveredExactly(events: seq<Event>, n: nat, stream: u32)
    requires n <= |events|
    requires stream in Run(events, n).images.entries
    ensures var s := Run(events, n);
      && stream in s.images.log
      && var log := s.images.log[stream];
      && (ReplyTo(s, FinishImage(stream, true)).Delivered? <==>
            InOrder(log, |log|) && |Payloads(log, |log|)| == s.images.entries[stream].expectedSize)
      && (ReplyTo(s, FinishImage(stream, true)).Delivered? ==>
            && ReplyTo(s, FinishImage(stream, true)).bytes == Payloads(log, |log|)
            && stream in Apply(s, FinishImage(stream, true)).stored
            && Apply(s, FinishImage(stream, true)).stored[stream] == Payloads(log, |log|))
  {
    hide ParseHeader, Run, InOrder, Payloads, Replay;
    RunKeepsInv(events, n);
    var s := Run(events, n);
    ReplayExactly(s.images.entries[stream].expectedSize, s.images.log[stream], |s.images.log[stream]|);
  }

  /** `after` holds the same upload of `stream`, with more frames at most. */
  ghost predicate SameUpload(before: Table, after: Table, stream: u32)
  {
    && stream in before.entries && stream in after.entries && stream in before.log && stream in after.log
    && after.entries[stream].expectedSize == before.entries[stream].expectedSize
    && before.log[stream] <= after.log[stream]
  }

  lemma StepKeepsWaiting(s: State, e: Event, stream: u32)
    requires stream in s.waiting && e != EndFinish(stream)
    requires stream in s.ebooks.entries && stream in s.ebooks.log && s.ebooks.entries[stream].finishing
    ensures stream in Apply(s, e).waiting
    ensures SameUpload(s.ebooks, Apply(s, e).ebooks, stream)
  {
    hide ParseHeader, OnFrame;
  }

  /** While one request waits for a stream, no other step erases or replaces its
      entry: only frames are added to it. */
  lemma {:induction false} WaitingEntryStays(events: seq<Event>, i: nat, n: nat, stream: u32)
    requires i <= n <= |events|
    requires stream in Run(events, i).waiting
    requires forall k :: i <= k < n ==> events[k] != EndFinish(stream)
    ensures stream in Run(events, n).waiting
    ensures SameUpload(Run(events, i).ebooks, Run(events, n).ebooks, stream)
    decreases n - i
  {
    hide ParseHeader, Apply;
    RunKeepsInv(events, i);
    if i < n {
      WaitingEntryStays(events, i, n - 1, stream);
      RunKeepsInv(events, n - 1);
      StepKeepsWaiting(Run(events, n - 1), events[n - 1], stream);
    }
  }

  lemma StepKeepsFailed(s: State, e: Event, stream: u32)
    requires stream in s.ebooks.entries && s.ebooks.entries[stream].failed
    requires e != EndFinish(stream)
    ensures stream in Apply(s, e).ebooks.entries && Apply(s, e).ebooks.entries[stream].failed
  {
    hide ParseHeader, Payload;
  }

  /** One bad frame is fatal: until the request that reports it, the stream stays
      failed, and that request refuses. */
  lemma {:induction false} BadFrameIsFatal(events: seq<Event>, i: nat, n: nat, stream: u32)
    requires i <= n <= |events|
    requires stream in Run(events, i).ebooks.entries && Run(events, i).ebooks.entries[stream].failed
    requires forall k :: i <= k < n ==> events[k] != EndFinish(stream)
    ensures stream in Run(events, n).ebooks.entries && Run(events, n).ebooks.entries[stream].failed
    ensures !ReplyTo(Run(events, n), EndFinish(stream)).Delivered?
    decreases n - i
  {
    hide Apply;
    if i < n {
      BadFrameIsFatal(events, i, n - 1, stream);
      StepKeepsFailed(Run(events, n - 1), events[n - 1], stream);
    }
  }

  // ---------------------------------------------------------------- the client

  lemma NextFrame(frames: seq<seq<byte>>, kind: byte, stream: u32, before: seq<byte>, frame: seq<byte>)
    requires Carries(frames, kind, stream, before)
    requires IsUploadFrame(frame, Wrap(|frames|))
    requires ParseHeader(frame).value.kind == kind && ParseHeader(frame).value.stream == stream
    ensures Carries(frames + [frame], kind, stream, before + Payload(frame))
  {
    hide ParseHeader;
    PayloadsStable(frames, frames + [frame], |frames|);
  }

  /** The frames the browser sends for a blob. */
  ghost predicate Carries(frames: seq<seq<byte>>, kind: byte, stream: u32, blob: seq<byte>)
  {
    && (forall i :: 0 <= i < |frames| ==>
          && IsUploadFrame(frames[i], Wrap(i))
          && ParseHeader(frames[i]).value.kind == kind
          && ParseHeader(frames[i]).value.stream == stream)
    && Payloads(frames, |frames|) == blob
  }

  method UploadFrame(kind: byte, stream: u32, sequence: u32, payload: seq<byte>) returns (frame: seq<byte>)
    requires |payload| <= UPLOAD_CHUNK
    ensures StartsWith(frame, Header(kind, stream, sequence, 0, |payload|))
    ensures Payload(frame) == payload
  {
    var buffer := new byte[HEADER_BYTES](_ => 0);
    var h := Header(kind, stream, sequence, 0, |payload|);
    WriteHeader(buffer, h);
    frame := buffer[..] + payload;
    SameHeader(buffer[..], frame, h);
  }

  /** `importEbook` (kind 4) and `prepareMessages` (kind 3), between start and finish. */
  method SendBlob(kind: byte, stream: u32, blob: seq<byte>) returns (frames: seq<seq<byte>>)
    ensures Carries(frames, kind, stream, blob)
  {
    frames := [];
    var offset, sequence := 0, 0;
    while offset < |blob|
      invariant 0 <= offset && sequence == |frames|
      invariant Carries(frames, kind, stream, blob[..Min(offset, |blob|)])
    {
      var end := Min(offset + UPLOAD_CHUNK, |blob|);
      var frame := UploadFrame(kind, stream, Wrap(sequence), blob[offset..end]);
      NextFrame(frames, kind, stream, blob[..offset], frame);
      assert blob[..offset] + blob[offset..end] == blob[..end];
      sequence := sequence + 1;
      frames := frames + [frame];
      offset := offset + UPLOAD_CHUNK;
    }
    assert blob[..Min(offset, |blob|)] == blob;
  }

  predicate Addressed(e: Event, kind: byte, stream: u32)
  {
    e.Binary? && var h := ParseHeader(e.frame); h.Some? && h.value.kind == kind && h.value.stream == stream
  }

  /** The frames of a kind for a stream among the events `from` up to `n`. */
  function Arrived(events: seq<Event>, from: nat, n: nat, kind: byte, stream: u32): seq<seq<byte>>
    requires n <= |events|
  {
    if n <= from then []
    else
      Arrived(events, from, n - 1, kind, stream) +
      if Addressed(events[n - 1], kind, stream) then [events[n - 1].frame] else []
  }

  /** The upload of `stream` is under way with these frames. */
  ghost predicate UnderWay(t: Table, stream: u32, size: nat, log: seq<seq<byte>>)
  {
    && stream in t.entries && stream in t.log
    && t.entries[stream].expectedSize == size && t.log[stream] == log
  }

  lemma StepUnderWay(s: State, e: Event, stream: u32, size: nat, log: seq<seq<byte>>)
    requires UnderWay(s.ebooks, stream, size, log) && e != EndFinish(stream)
    ensures UnderWay(Apply(s, e).ebooks, stream, size,
                     if Addressed(e, EBOOK_INPUT, stream) then log + [e.frame] else log)
  {
    hide ParseHeader, OnFrame;
  }

  /** From its start to its finish an upload has received the frames addressed to it,
      whatever else happens. */
  lemma {:induction false} LogIsArrived(events: seq<Event>, i: nat, n: nat, stream: u32, size: nat)
    requires i < n <= |events| && events[i] == StartEbook(stream, size)
    requires EbookAllowed(Run(events, i), stream, size)
    requires forall k :: i < k < n ==> events[k] != EndFinish(stream)
    ensures UnderWay(Run(events, n).ebooks, stream, size, Arrived(events, i + 1, n, EBOOK_INPUT, stream))
    decreases n
  {
    hide Apply, Addressed, EbookAllowed;
    if n == i + 1 {
      Announced(Run(events, i), stream, size);
    } else {
      LogIsArrived(events, i, n - 1, stream, size);
      var log := Arrived(events, i + 1, n - 1, EBOOK_INPUT, stream);
      StepUnderWay(Run(events, n - 1), events[n - 1], stream, size, log);
    }
  }

  lemma Announced(s: State, stream: u32, size: nat)
    requires EbookAllowed(s, stream, size)
    ensures UnderWay(Apply(s, StartEbook(stream, size)).ebooks, stream, size, [])
  {
  }

  lemma FinishWaits(s: State, stream: u32, size: nat, log: seq<seq<byte>>)
    requires Inv(s) && UnderWay(s.ebooks, stream, size, log)
    ensures stream in Apply(s, BeginFinish(stream)).waiting
  {
    hide TableInv;
  }

  lemma RunNext(events: seq<Event>, n: nat)
    requires n < |events|
    ensures Run(events, n + 1) == Apply(Run(events, n), events[n])
  {
    hide Apply;
  }

  lemma CarriedInOrder(frames: seq<seq<byte>>, kind: byte, stream: u32, blob: seq<byte>)
    requires Carries(frames, kind, stream, blob)
    ensures InOrder(frames, |frames|) && Payloads(frames, |frames|) == blob
  {
    hide ParseHeader, Payloads;
  }

  /** Upload round trip: the client announces a blob, its frames arrive in order while
      anything else happens, and a finish is requested before or after the last of them.
      When that request then stops waiting, it delivers the blob. */
  lemma BlobReassembles(
    events: seq<Event>, i: nat, j: nat, n: nat, stream: u32, frames: seq<seq<byte>>, blob: seq<byte>)
    requires i < j < n <= |events|
    requires events[i] == StartEbook(stream, |blob|) && EbookAllowed(Run(events, i), stream, |blob|)
    requires events[j] == BeginFinish(stream) && forall k :: i < k < n ==> events[k] != EndFinish(stream)
    requires Carries(frames, EBOOK_INPUT, stream, blob) && Arrived(events, i + 1, n, EBOOK_INPUT, stream) == frames
    ensures ReplyTo(Run(events, n), EndFinish(stream)) == Delivered(blob)
  {
    hide ParseHeader, Apply, EbookAllowed, Arrived, Carries, InOrder, Payloads, ReplyTo, Run;
    CarriedInOrder(frames, EBOOK_INPUT, stream, blob);
    LogIsArrived(events, i, j, stream, |blob|);
    RunKeepsInv(events, j);
    FinishWaits(Run(events, j), stream, |blob|, Arrived(events, i + 1, j, EBOOK_INPUT, stream));
    RunNext(events, j);
    WaitingEntryStays(events, j + 1, n, stream);
    LogIsArrived(events, i, n, stream, |blob|);
    EbookDeliveredExactly(events, n, stream);
  }

  // ------------------------------------------------------------------ and images

  /** Steps that may end the upload of an image: its finish, and the clearing of all. */
  predicate EndsImage(e: Event, stream: u32) { (e.FinishImage? && e.stream == stream) || e.ClearImages? }

  lemma ImageStepUnderWay(s: State, e: Event, stream: u32, size: nat, log: seq<seq<byte>>)
    requires UnderWay(s.images, stream, size, log) && !EndsImage(e, stream)
    ensures UnderWay(Apply(s, e).images, stream, size,
                     if Addressed(e, IMAGE_INPUT, stream) then log + [e.frame] else log)
  {
    hide ParseHeader, OnFrame;
  }

  lemma ImageAnnounced(s: State, stream: u32, size: nat, contentType: string, busy: bool)
    requires ImageAllowed(s, stream, size, contentType, busy)
    ensures UnderWay(Apply(s, StartImage(stream, size, contentType, busy)).images, stream, size, [])
  {
  }

  lemma {:induction false} ImageLogIsArrived(
    events: seq<Event>, i: nat, n: nat, stream: u32, size: nat, contentType: string, busy: bool)
    requires i < n <= |events| && events[i] == StartImage(stream, size, contentType, busy)
    requires ImageAllowed(Run(events, i), stream, size, contentType, busy)
    requires forall k :: i < k < n ==> !EndsImage(events[k], stream)
    ensures UnderWay(Run(events, n).images, stream, size, Arrived(events, i + 1, n, IMAGE_INPUT, stream))
    decreases n
  {
    hide Apply, Addressed, ImageAllowed, EndsImage;
    if n == i + 1 {
      ImageAnnounced(Run(events, i), stream, size, contentType, busy);
    } else {
      ImageLogIsArrived(events, i, n - 1, stream, size, contentType, busy);
      var log := Arrived(events, i + 1, n - 1, IMAGE_INPUT, stream);
      ImageStepUnderWay(Run(events, n - 1), events[n - 1], stream, size, log);
    }
  }

  /** The same for an image: announced, received in order among other events and not
      cleared, it is stored as the blob when its finish can write the file. */
  lemma ImageReassembles(
    events: seq<Event>, i: nat, n: nat, stream: u32, contentType: string, busy: bool,
    frames: seq<seq<byte>>, blob: seq<byte>)
    requires i < n <= |events| && events[i] == StartImage(stream, |blob|, contentType, busy)
    requires ImageAllowed(Run(events, i), stream, |blob|, contentType, busy)
    requires forall k :: i < k < n ==> !EndsImage(events[k], stream)
    requires Carries(frames, IMAGE_INPUT, stream, blob) && Arrived(events, i + 1, n, IMAGE_INPUT, stream) == frames
    ensures ReplyTo(Run(events, n), FinishImage(stream, true)) == Delivered(blob)
    ensures var stored := Apply(Run(events, n), FinishImage(stream, true)).stored;
      stream in stored && stored[stream] == blob
  {
    hide ParseHeader, Apply, ImageAllowed, Arrived, Carries, InOrder, Payloads, ReplyTo, Run, EndsImage;
    CarriedInOrder(frames, IMAGE_INPUT, stream, blob);
    ImageLogIsArrived(events, i, n, stream, |blob|, contentType, busy);
    ImageDeliveredExactly(events, n, stream);
  }

  lemma ImageStepKeepsFailed(s: State, e: Event, stream: u32)
    requires stream in s.images.entries && s.images.entries[stream].failed && !EndsImage(e, stream)
    ensures stream in Apply(s, e).images.entries && Apply(s, e).images.entries[stream].failed
  {
    hide ParseHeader, Payload;
  }

  /** One bad frame is fatal for an image, too, until the finish that reports it; and that
      finish drops the upload without storing anything. */
  lemma {:induction false} BadImageFrameIsFatal(events: seq<Event>, i: nat, n: nat, stream: u32, stored: bool)
    requires i <= n <= |events|
    requires stream in Run(events, i).images.entries && Run(events, i).images.entries[stream].failed
    requires forall k :: i <= k < n ==> !EndsImage(events[k], stream)
    ensures stream in Run(events, n).images.entries && Run(events, n).images.entries[stream].failed
    ensures ReplyTo(Run(events, n), FinishImage(stream, stored)) == Refused
    ensures var after := Apply(Run(events, n), FinishImage(stream, stored));
      stream !in after.images.entries && after.stored == Run(events, n).stored
    decreases n - i
  {
    hide Apply, EndsImage, Run;
    if i < n {
      BadImageFrameIsFatal(events, i, n - 1, stream, stored);
      RunNext(events, n - 1);
      ImageStepKeepsFailed(Run(events, n - 1), events[n - 1], stream);
    }
    FailedIsDropped(Run(events, n), stream, stored);
  }

  lemma FailedIsDropped(s: State, stream: u32, stored: bool)
    requires stream in s.images.entries && s.images.entries[stream].failed
    ensures ReplyTo(s, FinishImage(stream, stored)) == Refused
    ensures var after := Apply(s, FinishImage(stream, stored));
      stream !in after.images.entries && after.stored == s.stored
  {
  }
}
