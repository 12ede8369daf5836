/** The handlers of one session that share its upload tables and its recording
    buffer. Each holds the lock of what it touches, so each is one step. */
module AppSession {
  import opened Wrappers
  import opened Wire
  import opened Samples
  import Uploads
  import AsrInput

  class Session {
    const limits: AsrInput.Limits
    var imageUploads: map<u32, Uploads.Upload>
    var uploadedImages: map<u32, seq<byte>>
    var ebookUploads: map<u32, Uploads.Upload>
    var audio: Option<AsrInput.AudioInput>
    /** The frames that reached each upload, and the streams being finished. */
    ghost var imageLog: map<u32, seq<seq<byte>>>
    ghost var ebookLog: map<u32, seq<seq<byte>>>
    ghost var waiting: set<u32>
    /** The recording with the thread that transcribes it and all messages received. */
    ghost var asr: AsrInput.State

    /** The upload tables as one value. */
    ghost function Files(): Uploads.State
      reads this
    {
      Uploads.State(Uploads.Table(imageUploads, imageLog), uploadedImages,
                    Uploads.Table(ebookUploads, ebookLog), waiting)
    }

    /** Uploads are what their frames make of them, and the recording is the decoding
        of the frames received, within its limits, or has an error. */
    ghost predicate Valid()
      reads this
    {
      Uploads.Inv(Files()) && AsrInput.Inv(limits, asr) && asr.audio == audio
    }

    constructor (maxAudioQueueMs: nat, partialIntervalMs: nat)
      ensures Valid() && Files() == Uploads.INITIAL && asr == AsrInput.INITIAL
      ensures limits == AsrInput.LimitsOf(maxAudioQueueMs, partialIntervalMs)
    {
      limits := AsrInput.LimitsOf(maxAudioQueueMs, partialIntervalMs);
      imageUploads, uploadedImages, ebookUploads, audio := map[], map[], map[], None;
      imageLog, ebookLog, waiting := map[], map[], {};
      asr := AsrInput.INITIAL;
      new;
      Uploads.RunKeepsInv([], 0);
      AsrInput.RunKeepsInv(limits, [], 0);
    }

    // ------------------------------------------------------------------- uploads

    method StartImage(stream: u32, size: nat, contentType: string, busy: bool) returns (accepted: bool)
      requires Valid()
      modifies this
      ensures Valid() && asr == old(asr)
      ensures Files() == Uploads.Apply(old(Files()), Uploads.StartImage(stream, size, contentType, busy))
      ensures accepted <==>
              Uploads.ReplyTo(old(Files()), Uploads.StartImage(stream, size, contentType, busy)) == Uploads.Accepted
    {
      hide Uploads.Inv, AsrInput.Inv;
      Uploads.ApplyKeepsInv(Files(), Uploads.StartImage(stream, size, contentType, busy));
      if busy {
        return false;
      }
      if size == 0 || size > Uploads.MAX_IMAGE || (contentType != "image/jpeg" && contentType != "image/png") ||
         stream in imageUploads || stream in uploadedImages {
        return false;
      }
      imageUploads := imageUploads[stream := Uploads.Upload(size, 0, [], false, false)];
      imageLog := imageLog[stream := []];
      return true;
    }

    /** `stored` tells whether the temporary file could be written. What is stored is
        what the stream's frames carry, if they came in order and are complete. */
    method FinishImage(stream: u32, stored: bool) returns (ok: bool)
      requires Valid()
      modifies this
      ensures Valid() && asr == old(asr)
      ensures Files() == Uploads.Apply(old(Files()), Uploads.FinishImage(stream, stored))
      ensures ok <==> stored && stream in old(imageUploads) && stream in old(imageLog) &&
                      Uploads.ExactSize(old(imageLog)[stream], old(imageUploads)[stream].expectedSize)
      ensures ok ==> stream in uploadedImages && stream in old(imageLog) &&
                     uploadedImages[stream] == Uploads.Carried(old(imageLog)[stream])
    {
      hide Uploads.Inv, AsrInput.Inv, Uploads.ExactSize, Uploads.Carried;
      Uploads.ApplyKeepsInv(Files(), Uploads.FinishImage(stream, stored));
      if stream !in imageUploads {
        return false;
      }
      Uploads.ImageEntry(Files(), stream);
      Uploads.EntryMeans(imageUploads[stream], imageLog[stream], Uploads.MAX_IMAGE);
      var found := imageUploads[stream];
      if found.failed {
        imageUploads, imageLog := imageUploads - {stream}, imageLog - {stream};
        return false;
      }
      if |found.bytes| != found.expectedSize || !stored {
        return false;
      }
      uploadedImages := uploadedImages[stream := found.bytes];
      imageUploads, imageLog := imageUploads - {stream}, imageLog - {stream};
      return true;
    }

    method ClearUploadedImages()
      requires Valid()
      modifies this
      ensures Valid() && asr == old(asr)
      ensures Files() == Uploads.Apply(old(Files()), Uploads.ClearImages)
    {
      hide Uploads.Inv, AsrInput.Inv;
      Uploads.ApplyKeepsInv(Files(), Uploads.ClearImages);
      uploadedImages := map[];
      imageUploads, imageLog := map[], map[];
    }

    method StartEbook(stream: u32, size: nat) returns (accepted: bool)
      requires Valid()
      modifies this
      ensures Valid() && asr == old(asr)
      ensures Files() == Uploads.Apply(old(Files()), Uploads.StartEbook(stream, size))
      ensures accepted <==> Uploads.ReplyTo(old(Files()), Uploads.StartEbook(stream, size)) == Uploads.Accepted
    {
      hide Uploads.Inv, AsrInput.Inv;
      Uploads.ApplyKeepsInv(Files(), Uploads.StartEbook(stream, size));
      if size == 0 || size > Uploads.MAX_EBOOK || stream in ebookUploads {
        return false;
      }
      ebookUploads := ebookUploads[stream := Uploads.Upload(size, 0, [], false, false)];
      ebookLog := ebookLog[stream := []];
      return true;
    }

    /** The finishing request up to its wait. */
    method BeginFinishEbook(stream: u32) returns (waits: bool)
      requires Valid()
      modifies this
      ensures Valid() && asr == old(asr)
      ensures Files() == Uploads.Apply(old(Files()), Uploads.BeginFinish(stream))
      ensures waits <==> stream in old(ebookUploads) && stream !in old(waiting)
      ensures waits ==> stream in waiting && stream in ebookUploads
    {
      hide Uploads.TableInv, AsrInput.Inv;
      Uploads.ApplyKeepsInv(Files(), Uploads.BeginFinish(stream));
      if stream !in ebookUploads || ebookUploads[stream].finishing {
        return false;
      }
      ebookUploads := ebookUploads[stream := ebookUploads[stream].(finishing := true)];
      waiting := waiting + {stream};
      return true;
    }

    /** The finishing request from where its wait ends. It delivers what the stream's
        frames carry exactly if they came in order and are complete. */
    method EndFinishEbook(stream: u32) returns (archive: Option<seq<byte>>)
      requires Valid() && stream in waiting
      modifies this
      ensures Valid() && asr == old(asr) && stream !in ebookUploads && stream !in waiting
      ensures Files() == Uploads.Apply(old(Files()), Uploads.EndFinish(stream))
      ensures stream in old(ebookLog) && stream in old(ebookUploads)
      ensures var log, size := old(ebookLog)[stream], old(ebookUploads)[stream].expectedSize;
              archive == if Uploads.ExactSize(log, size) then Some(Uploads.Carried(log)) else None
    {
      hide Uploads.Inv, AsrInput.Inv, Uploads.ExactSize, Uploads.Carried;
      Uploads.EbookEntry(Files(), stream);
      Uploads.EntryMeans(ebookUploads[stream], ebookLog[stream], Uploads.MAX_EBOOK);
      Uploads.ApplyKeepsInv(Files(), Uploads.EndFinish(stream));
      var found := ebookUploads[stream];
      ebookUploads, ebookLog, waiting := ebookUploads - {stream}, ebookLog - {stream}, waiting - {stream};
      if found.failed || |found.bytes| != found.expectedSize {
        return None;
      }
      return Some(found.bytes);
    }

    // ----------------------------------------------------------------- recording

    /** The request has its lease and makes a recording. It finds none: `Sessions.BeginFindsNone`. */
    method StartAudio(requestId: string, stream: u32)
      requires Valid() && asr.worker.Idle?
      modifies this`audio, this`asr
      ensures Valid() && asr == AsrInput.Apply(limits, old(asr), AsrInput.Start(requestId, stream))
      ensures audio.Some? && audio.value.samples == [] && audio.value.error == None
    {
      hide Uploads.Inv, AsrInput.Inv;
      AsrInput.ApplyKeepsInv(limits, asr, AsrInput.Start(requestId, stream));
      audio := Some(AsrInput.AudioInput(requestId, stream, 0, 0, [], false, None));
      asr := AsrInput.Apply(limits, asr, AsrInput.Start(requestId, stream));
    }

    /** The request returns. The recording it finds is its own: `Sessions.EndDropsOwn`. */
    method ClearAudio(requestId: string)
      requires Valid() && asr.worker.Done? && (audio.Some? ==> audio.value.requestId == requestId)
      modifies this`audio, this`asr
      ensures Valid() && audio == None && asr.worker.Idle?
    {
      hide Uploads.Inv, AsrInput.Inv;
      AsrInput.ApplyKeepsInv(limits, asr, AsrInput.CleanUp);
      if audio.Some? && audio.value.requestId == requestId {
        audio := None;
      }
      asr := AsrInput.Apply(limits, asr, AsrInput.CleanUp);
    }

    /** Only the request named is stopped, and from its first stop on its text owes every
        frame received so far. */
    method StopAsr(requestId: string) returns (stopped: bool)
      requires Valid()
      modifies this`audio, this`asr
      ensures Valid() && asr == AsrInput.Apply(limits, old(asr), AsrInput.Stop(requestId))
      ensures stopped <==> old(audio).Some? && old(audio).value.requestId == requestId
      ensures stopped ==> audio.Some? && audio.value.final && audio.value.samples == old(audio).value.samples
      ensures stopped && !old(audio).value.final ==> asr.beforeStop == |asr.received|
      ensures !stopped ==> audio == old(audio)
    {
      hide Uploads.Inv, AsrInput.Inv;
      AsrInput.ApplyKeepsInv(limits, asr, AsrInput.Stop(requestId));
      stopped := false;
      asr := AsrInput.Apply(limits, asr, AsrInput.Stop(requestId));
      if audio.Some? && audio.value.requestId == requestId {
        audio := Some(audio.value.(final := true));
        stopped := true;
      }
    }

    /** One pass of the transcription loop up to the transcription. A snapshot decodes
        all frames received, without a gap, and covers at least one more interval unless
        it is final; an error is reported before anything else. */
    method Snapshot(processed: nat, cancelled: bool) returns (worker: AsrInput.Worker)
      requires Valid() && asr.worker == AsrInput.Waiting(processed)
      modifies this`asr
      ensures Valid() && asr == AsrInput.Apply(limits, old(asr), AsrInput.Wake(cancelled)) && worker == asr.worker
      ensures audio.Some?
      ensures worker.Done? <==> cancelled || audio.value.error.Some?
      ensures worker.Done? ==>
                worker.outcome == if cancelled then AsrInput.Stopped else AsrInput.InputError(audio.value.error.value)
      ensures worker.Transcribing? ==>
                && AsrInput.DecodesAll(asr.received, audio.value.streamId, worker.snapshot)
                && worker.final == audio.value.final
                && (worker.final || |worker.snapshot| >= processed + limits.interval)
      ensures worker.Waiting? ==>
                worker.processed == processed && !audio.value.final &&
                |audio.value.samples| < Max(1600, processed + limits.interval)
    {
      hide Uploads.Inv, AsrInput.Transcribes, AsrInput.Relevant, AsrInput.Gapless, AsrInput.Decoded;
      AsrInput.ApplyKeepsInv(limits, asr, AsrInput.Wake(cancelled));
      asr := AsrInput.Apply(limits, asr, AsrInput.Wake(cancelled));
      if cancelled {
        return AsrInput.Done(AsrInput.Stopped);
      }
      if audio == None {
        return AsrInput.Done(AsrInput.Stopped);
      }
      var inputError := audio.value.error;
      var final := audio.value.final;
      if inputError == None && !final && |audio.value.samples| < processed + limits.interval {
        return AsrInput.Waiting(processed);
      }
      var snapshot := audio.value.samples;
      if inputError.Some? {
        return AsrInput.Done(AsrInput.InputError(inputError.value));
      }
      if |snapshot| < 1600 && !final {
        return AsrInput.Waiting(processed);
      }
      return AsrInput.Transcribing(processed, snapshot, final);
    }

    /** The transcription of a snapshot has succeeded. The queue limit moves on with it;
        the text of a final one covers every frame received before the stop. */
    method CommitSnapshot(snapshot: seq<real>)
      requires Valid() && asr.worker.Transcribing? && asr.worker.snapshot == snapshot
      modifies this`audio, this`asr
      ensures Valid() && asr == AsrInput.Apply(limits, old(asr), AsrInput.Transcribed(true))
      ensures audio.Some? ==> AsrInput.Fits(limits, audio.value)
      ensures old(audio).Some? && audio.Some? && audio.value.samples == old(audio).value.samples
      ensures old(audio).value.processed <= audio.value.processed == |snapshot|
      ensures if old(asr).worker.final
              then asr.worker == AsrInput.Done(AsrInput.Text(snapshot)) &&
                   asr.beforeStop <= |asr.received| &&
                   AsrInput.Transcribes(asr.received, audio.value.streamId, snapshot, asr.beforeStop)
              else asr.worker == AsrInput.Waiting(|snapshot|)
    {
      hide Uploads.Inv, AsrInput.Transcribes, AsrInput.GaplessInv;
      AsrInput.ApplyKeepsInv(limits, asr, AsrInput.Transcribed(true));
      asr := AsrInput.Apply(limits, asr, AsrInput.Transcribed(true));
      if audio.Some? {
        audio := Some(audio.value.(processed := |snapshot|));
      }
    }

    method FailAudio(error: AsrInput.AudioError)
      modifies this`audio
      ensures audio == AsrInput.Fail(old(audio), error)
    {
      if audio == None {
        return;
      }
      audio := Some(audio.value.(error := Some(error)));
    }

    /** A binary message goes to the upload its header names or to the recording, never
        to both. It leaves the recording without an error exactly when it belongs to an
        upload, or is the next frame of the stream and fits both limits; then its samples
        are added and no others. */
    method HandleBinary(frame: seq<byte>)
      requires Valid()
      modifies this
      ensures Valid()
      ensures audio.Some? ==> AsrInput.Fits(limits, audio.value)
      ensures Files() == Uploads.Apply(old(Files()), Uploads.Binary(frame))
      ensures asr == AsrInput.Apply(limits, old(asr), AsrInput.Receive(frame))
      ensures audio.Some? == old(audio).Some?
      ensures audio.Some? ==>
                (audio.value.error.None? <==>
                   old(audio).value.error.None? && AsrInput.Acceptable(limits, old(audio).value, frame))
      ensures audio.Some? && audio.value.error.None? ==>
                audio.value.samples ==
                old(audio).value.samples + if AsrInput.Skipped(frame) then [] else AsrInput.FrameSamples(frame)
    {
      hide Uploads.Inv, AsrInput.Inv, Uploads.OnFrame, AsrInput.Append, AsrInput.Acceptable, AsrInput.FrameSamples;
      hide AsrInput.Skipped;
      Uploads.ApplyKeepsInv(Files(), Uploads.Binary(frame));
      AsrInput.ApplyKeepsInv(limits, asr, AsrInput.Receive(frame));
      AudioFits();
      if audio.Some? {
        AsrInput.AcceptedExactly(limits, audio.value, frame);
        AsrInput.ReceiveKeepsFits(limits, audio.value, frame);
      }
      asr := AsrInput.Apply(limits, asr, AsrInput.Receive(frame));
      Dispatch(frame);
    }

    lemma AudioFits()
      requires Valid()
      ensures audio.Some? ==> AsrInput.Fits(limits, audio.value)
    {
    }

    /** The branches of `handle_binary`. */
    method Dispatch(frame: seq<byte>)
      requires Uploads.Inv(Files()) && (audio.Some? ==> AsrInput.Fits(limits, audio.value))
      modifies this`imageUploads, this`imageLog, this`ebookUploads, this`ebookLog, this`audio
      ensures Files() == Uploads.Apply(old(Files()), Uploads.Binary(frame))
      ensures audio == AsrInput.OnBinary(old(audio), frame, limits.maxQueued)
    {
      hide Uploads.Inv, Uploads.OnFrame, AsrInput.Append, AsrInput.Fits, Uploads.EntryInv, ParseHeader;
      var header := ReadHeader(frame);
      if header == None {
        FailAudio(AsrInput.InvalidBinary);
        return;
      }
      var h := header.value;
      if h.kind == IMAGE_INPUT {
        if h.stream !in imageUploads {
          return;
        }
        Uploads.ImageEntry(Files(), h.stream);
        var next := AppendUpload(imageUploads[h.stream], imageLog[h.stream], Uploads.MAX_IMAGE, h, frame);
        imageUploads := imageUploads[h.stream := next];
        imageLog := imageLog[h.stream := imageLog[h.stream] + [frame]];
        return;
      }
      if h.kind == EBOOK_INPUT {
        if h.stream !in ebookUploads {
          return;
        }
        Uploads.EbookEntry(Files(), h.stream);
        var next := AppendUpload(ebookUploads[h.stream], ebookLog[h.stream], Uploads.MAX_EBOOK, h, frame);
        ebookUploads := ebookUploads[h.stream := next];
        ebookLog := ebookLog[h.stream := ebookLog[h.stream] + [frame]];
        return;
      }
      if h.kind != AUDIO_ASR {
        FailAudio(AsrInput.InvalidAudio);
        return;
      }
      if h.rate != AsrInput.ASR_RATE || h.length != |frame| - HEADER_BYTES || h.length % 2 != 0 {
        FailAudio(AsrInput.InvalidAudio);
        return;
      }
      if audio == None {
        return;
      }
      var next := AppendAudio(audio.value, h, frame);
      audio := Some(next);
    }

    /** The part of `handle_binary` that has found a recording to append to. The buffer
        keeps within both limits, and stays the decoding of the frames received unless
        the error is set. */
    method AppendAudio(input: AsrInput.AudioInput, h: Header, frame: seq<byte>) returns (a: AsrInput.AudioInput)
      requires ParseHeader(frame) == Some(h) && h.kind == AUDIO_ASR && AsrInput.GoodShape(h, frame)
      requires AsrInput.Fits(limits, input)
      ensures a == AsrInput.Append(input, h, frame, limits.maxQueued)
      ensures AsrInput.Fits(limits, a)
      ensures forall received :: AsrInput.GaplessInv(received, input) ==> AsrInput.GaplessInv(received + [frame], a)
    {
      hide AsrInput.GaplessInv, AsrInput.FrameSamples, ParseHeader, Wrap;
      AppendMeans(limits, input, h, frame);
      a := input;
      if h.stream != a.streamId {
        a := a.(error := Some(AsrInput.AudioSequence));
        return;
      }
      var expected: nat := a.expectedSequence;
      a := a.(expectedSequence := Wrap(expected + 1));
      if h.sequence != expected {
        a := a.(error := Some(AsrInput.AudioSequence));
        return;
      }
      var samples := h.length / 2;
      if |a.samples| + samples > a.processed + limits.maxQueued {
        a := a.(error := Some(AsrInput.AudioOverflow));
        return;
      }
      if |a.samples| + samples > AsrInput.MAX_ASR_SAMPLES {
        a := a.(error := Some(AsrInput.AudioTooLong));
        return;
      }
      var more := DecodeSamples(frame);
      a := a.(samples := a.samples + more);
    }
  }

  /** Appending is what the state machine does on receiving the frame. */
  lemma AppendMeans(l: AsrInput.Limits, a: AsrInput.AudioInput, h: Header, frame: seq<byte>)
    requires ParseHeader(frame) == Some(h) && h.kind == AUDIO_ASR && AsrInput.GoodShape(h, frame)
    requires AsrInput.Fits(l, a)
    ensures var next := AsrInput.Append(a, h, frame, l.maxQueued);
      && AsrInput.Fits(l, next)
      && forall received :: AsrInput.GaplessInv(received, a) ==> AsrInput.GaplessInv(received + [frame], next)
  {
    hide AsrInput.GaplessInv, AsrInput.Append, AsrInput.FrameSamples, ParseHeader;
    AsrInput.ReceiveKeepsFits(l, a, frame);
    forall received | AsrInput.GaplessInv(received, a)
      ensures AsrInput.GaplessInv(received + [frame], AsrInput.Append(a, h, frame, l.maxQueued))
    {
      AsrInput.ReceiveKeepsGapless(l, received, a, frame);
    }
  }

  method ReadHeader(frame: seq<byte>) returns (header: Option<Header>)
    ensures header == ParseHeader(frame)
    ensures header.Some? ==> |frame| >= HEADER_BYTES
  {
    if |frame| < HEADER_BYTES || frame[..4] != MAGIC || frame[4] != VERSION {
      return None;
    }
    var stream := ReadU32(frame, 8);
    var sequence := ReadU32(frame, 12);
    var rate := ReadU32(frame, 16);
    var length := ReadU32(frame, 20);
    return Some(Header(frame[5], stream, sequence, rate, length));
  }

  /** The common part of the two upload branches: with the new frame the entry has
      failed exactly if its frames are not in order or carry too much, and otherwise
      holds what they carry. */
  method AppendUpload(upload: Uploads.Upload, ghost log: seq<seq<byte>>, ghost limit: nat, h: Header, frame: seq<byte>)
    returns (r: Uploads.Upload)
    requires |frame| >= HEADER_BYTES && ParseHeader(frame) == Some(h) && Uploads.EntryInv(upload, log, limit)
    ensures r == Uploads.OnFrame(upload, h, frame)
    ensures Uploads.EntryInv(r, log + [frame], limit)
    ensures r.failed <==> !Uploads.WithinSize(log + [frame], r.expectedSize)
    ensures !r.failed ==> r.bytes == Uploads.Carried(log + [frame])
  {
    hide Wrap, ParseHeader, Uploads.EntryInv, Uploads.WithinSize, Uploads.Carried;
    Uploads.FrameKeepsEntry(upload, log, h, frame, limit);
    Uploads.EntryMeans(Uploads.OnFrame(upload, h, frame), log + [frame], limit);
    var expected: nat := upload.sequence;
    r := upload.(sequence := Wrap(expected + 1));
    if h.sequence != expected || h.rate != 0 || h.length != |frame| - HEADER_BYTES ||
       |r.bytes| + h.length > r.expectedSize {
      r := r.(failed := true);
      return;
    }
    r := r.(bytes := r.bytes + frame[HEADER_BYTES..]);
  }

  /** `low | high << 8`: the two bytes never overlap. */
  function Bits(low: nat, high: nat): nat { low + 256 * high }

  /** The loop over the little-endian PCM16 samples of a frame. */
  method DecodeSamples(frame: seq<byte>) returns (samples: seq<real>)
    requires |frame| >= HEADER_BYTES && |frame| % 2 == 0
    ensures samples == AsrInput.FrameSamples(frame)
  {
    hide AsrInput.FrameSamples;
    samples := [];
    var offset := HEADER_BYTES;
    while offset < |frame|
      invariant HEADER_BYTES <= offset <= |frame| && offset % 2 == 0
      invariant |samples| == (offset - HEADER_BYTES) / 2 && samples <= AsrInput.FrameSamples(frame)
    {
      SampleAt(frame, |samples|);
      var bits: int := Bits(frame[offset], frame[offset + 1]);
      var value := if bits >= 0x8000 then bits - 0x1_0000 else bits;
      samples := samples + [value as real / 32768.0];
      offset := offset + 2;
    }
    AllSamples(frame);
  }

  lemma SampleAt(frame: seq<byte>, k: nat)
    requires |frame| % 2 == 0 && HEADER_BYTES + 2 * k + 1 < |frame|
    ensures k < |AsrInput.FrameSamples(frame)|
    ensures var bits := Bits(frame[HEADER_BYTES + 2 * k], frame[HEADER_BYTES + 2 * k + 1]);
      AsrInput.FrameSamples(frame)[k] == (if bits >= 0x8000 then bits - 0x1_0000 else bits) as real / 32768.0
  {
    hide Int16Of;
    var payload := frame[HEADER_BYTES..];
    assert payload[2 * k] == frame[HEADER_BYTES + 2 * k] && payload[2 * k + 1] == frame[HEADER_BYTES + 2 * k + 1];
    SampleValue(payload[2 * k], payload[2 * k + 1]);
  }

  lemma SampleValue(low: byte, high: byte)
    ensures var bits := Bits(low, high);
      Dequantise(Int16Of(low, high)) == (if bits >= 0x8000 then bits - 0x1_0000 else bits) as real / 32768.0
  {
  }

  lemma AllSamples(frame: seq<byte>)
    requires |frame| >= HEADER_BYTES && |frame| % 2 == 0
    ensures |AsrInput.FrameSamples(frame)| == (|frame| - HEADER_BYTES) / 2
  {
  }
}
